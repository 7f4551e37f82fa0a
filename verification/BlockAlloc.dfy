/** The block allocator: lwext4/src/ext4_balloc.c on a volume whose blocks count from 0, and with as
    many blocks in a group as a bitmap block has bits. */
module BlockAlloc {
  import opened Bitmap
  import opened BlockGroups
  import opened Common

  datatype Err = EOK | ENOSPC

  const INODE_BLOCK_SIZE := 512

  class Volume {
    const blockSize: nat
    const per: nat
    const total: nat
    /** Bitmap and free count of every group, and the superblock's free count. */
    var bitmaps: seq<seq<bool>>
    var free: seq<nat>
    var sbFree: nat
    /** Blocks of each inode, in units of 512 bytes. */
    var inodeBlocks: map<nat, nat>

    /** The counters match the bitmaps. */
    ghost predicate Valid()
      reads this
    {
      && blockSize > 0 && per == 8 * blockSize
      && Counted(bitmaps, free, total, per) && sbFree == Sum(free)
      && forall g :: 0 <= g < |bitmaps| ==> |bitmaps[g]| == per
    }

    /** Whether a block is in use. */
    predicate InUse(a: nat)
      requires per > 0 && HasBit(bitmaps, per, a)
      reads this
    {
      Used(bitmaps, per, a)
    }

    /** So many blocks, in the units of an inode's block count. */
    function Units(count: nat): nat {
      count * (blockSize / INODE_BLOCK_SIZE)
    }

    /** Reads the bitmap block of a group. */
    method Load(g: nat) returns (b: array<bool>)
      requires g < |bitmaps|
      ensures fresh(b) && b[..] == bitmaps[g]
    {
      var bits := bitmaps[g];
      b := new bool[|bits|](i requires 0 <= i < |bits| => bits[i]);
    }

    /** Sets a clear bit, writes the bitmap back and moves the counters along. */
    method Take(ino: nat, g: nat, b: array<bool>, i: nat)
      requires Valid() && ino in inodeBlocks && g < |bitmaps| && i < InGroup(total, per, g)
      requires b[..] == bitmaps[g] && i < b.Length && !b[i]
      modifies b, this`bitmaps, this`free, this`sbFree, this`inodeBlocks
      ensures Valid() && bitmaps == WithBit(old(bitmaps), g, i, true)
      ensures sbFree == old(sbFree) - 1
              && inodeBlocks == old(inodeBlocks)[ino := old(inodeBlocks)[ino] + blockSize / INODE_BLOCK_SIZE]
    {
      hide InGroup, GroupCnt, Zeros, Sum;
      BitFree(g, i);
      BitCounted(bitmaps, free, total, per, g, i, true);
      SumPut(free, g, free[g] - 1);
      b[i] := true;
      bitmaps := bitmaps[g := b[..]];
      sbFree := sbFree - 1;
      inodeBlocks := inodeBlocks[ino := inodeBlocks[ino] + blockSize / INODE_BLOCK_SIZE];
      free := free[g := free[g] - 1];
    }

    /** A clear bit is counted in its group and in the superblock. */
    lemma {:induction false} BitFree(g: nat, i: nat)
      requires Valid() && g < |bitmaps| && i < InGroup(total, per, g) && i < |bitmaps[g]| && !bitmaps[g][i]
      ensures free[g] > 0 && sbFree > 0
    {
      FullGroup(bitmaps, free, total, per, g);
      SumZero(free);
    }

    /** What a successful allocation of block a for an inode leaves. */
    ghost predicate Allocated(was: seq<seq<bool>>, a: nat)
      reads this
    {
      && per > 0 && a < total && HasBit(was, per, a) && !Used(was, per, a)
      && bitmaps == WithBit(was, GroupOf(0, per, a), IdxOf(0, per, a), true)
    }

    /** Of all free blocks, a comes first in the order of the search: from the goal to the end of its group,
        then the groups behind it, from 0 on after the last, and at the end the goal's group again. */
    ghost predicate Nearest(was: seq<seq<bool>>, goal: nat, a: nat) {
      && per > 0 && HasBit(was, per, goal) && HasBit(was, per, a)
      && var g, i, k, j := GroupOf(0, per, goal), IdxOf(0, per, goal), GroupOf(0, per, a), IdxOf(0, per, a);
         if k == g && i <= j then
           AllSet(was[g], i, j)
         else
           && 0 <= InGroup(total, per, g) <= |was[g]| && AllSet(was[g], i, InGroup(total, per, g))
           && AllSet(was[k], 0, j)
           && if g < k then NoneIn(was, total, per, g + 1, k)
              else NoneIn(was, total, per, g + 1, |was|) && NoneIn(was, total, per, 0, k)
    }

    lemma {:induction false} NearestHere(goal: nat, i: nat)
      requires Valid() && goal < total && GroupOf(0, per, goal) < |bitmaps|
      requires IdxOf(0, per, goal) <= i < InGroup(total, per, GroupOf(0, per, goal))
      requires i < |bitmaps[GroupOf(0, per, goal)]|
      requires AllSet(bitmaps[GroupOf(0, per, goal)], IdxOf(0, per, goal), i)
      ensures Nearest(bitmaps, goal, AddrOf(0, per, i, GroupOf(0, per, goal)))
      ensures GroupOf(0, per, AddrOf(0, per, i, GroupOf(0, per, goal))) == GroupOf(0, per, goal)
      ensures IdxOf(0, per, AddrOf(0, per, i, GroupOf(0, per, goal))) == i
    {
      hide GroupOf, IdxOf, AddrOf, InGroup, Zeros, AllSet;
      HasBits(bitmaps, free, total, per, goal);
      Inside(total, per, GroupOf(0, per, goal), i);
    }

    lemma {:induction false} NearestLater(goal: nat, k: nat, j: nat)
      requires Valid() && goal < total && GroupOf(0, per, goal) < |bitmaps| == |free| && k < |bitmaps|
      requires j < InGroup(total, per, k) && j < |bitmaps[k]| && AllSet(bitmaps[k], 0, j)
      requires var g := GroupOf(0, per, goal);
               && 0 <= InGroup(total, per, g) <= |bitmaps[g]|
               && AllSet(bitmaps[g], IdxOf(0, per, goal), InGroup(total, per, g))
               && forall b :: 0 <= b < |free| && (if g < k then g < b < k else g < b || b < k) ==> free[b] == 0
      ensures Nearest(bitmaps, goal, AddrOf(0, per, j, k))
    {
      hide GroupOf, IdxOf, AddrOf, InGroup, Zeros, NoneIn;
      HasBits(bitmaps, free, total, per, goal);
      Inside(total, per, k, j);
      var g := GroupOf(0, per, goal);
      if g < k {
        ZeroGroups(bitmaps, free, total, per, g + 1, k);
      } else {
        ZeroGroups(bitmaps, free, total, per, g + 1, |bitmaps|);
        ZeroGroups(bitmaps, free, total, per, 0, k);
      }
    }

    lemma {:induction false} TakenAt(was: seq<seq<bool>>, g: nat, i: nat)
      requires per > 0 && total > 0 && |was| == GroupCnt(total, per) && g < |was| && i < InGroup(total, per, g)
               && i < |was[g]| && !was[g][i]
      requires bitmaps == WithBit(was, g, i, true)
      ensures Allocated(was, AddrOf(0, per, i, g))
    {
      Inside(total, per, g, i);
    }

    /** When the bits up to the next multiple of 64 have been tried, the search from idx finds a clear
        bit: the partial byte, where it would answer wrongly, is behind it. */
    lemma {:induction false} NearTried(g: nat, idx: nat, tmp: nat)
      requires Valid() && g < |bitmaps| && idx < InGroup(total, per, g) && idx < tmp
      requires forall k :: idx <= k < tmp && k < |bitmaps[g]| ==> bitmaps[g][k]
      requires tmp >= (idx + 63) / 64 * 64 || tmp >= InGroup(total, per, g)
      ensures InGroup(total, per, g) <= |bitmaps[g]|
      ensures var r := Answer(bitmaps[g], idx, InGroup(total, per, g));
              if r.Some? then
                idx <= r.value < InGroup(total, per, g) && !bitmaps[g][r.value] && AllSet(bitmaps[g], idx, r.value)
              else
                AllSet(bitmaps[g], idx, InGroup(total, per, g))
    {
      ByteInWord(idx);
      hide ByteUp, InGroup;
      AnswerClear(bitmaps[g], idx, InGroup(total, per, g));
    }

    lemma {:induction false} ByteInWord(idx: nat)
      ensures ByteUp(idx) <= (idx + 63) / 64 * 64
    {
    }

    /** A group whose counter is not zero has a clear bit, and the search from its start finds it. */
    lemma {:induction false} SearchAll(g: nat)
      requires Valid() && g < |bitmaps| && free[g] != 0
      ensures 0 <= InGroup(total, per, g) <= |bitmaps[g]|
      ensures var r := Answer(bitmaps[g], 0, InGroup(total, per, g));
              r.Some? && r.value < InGroup(total, per, g) && !bitmaps[g][r.value] && AllSet(bitmaps[g], 0, r.value)
    {
      FullGroup(bitmaps, free, total, per, g);
      AnswerClear(bitmaps[g], 0, InGroup(total, per, g));
    }

    lemma {:induction false} NextGroup(g: nat, n: nat)
      requires g < n
      ensures (g + 1) % n == if g + 1 == n then 0 else g + 1
    {
    }

    /** The end of every successful allocation. */
    method TakeAt(ino: nat, g: nat, b: array<bool>, i: nat) returns (fblock: nat)
      requires Valid() && ino in inodeBlocks && g < |bitmaps| && i < InGroup(total, per, g)
      requires b[..] == bitmaps[g] && i < b.Length && !b[i]
      modifies b, this`bitmaps, this`free, this`sbFree, this`inodeBlocks
      ensures Valid() && Allocated(old(bitmaps), fblock) && sbFree == old(sbFree) - 1 && fblock == AddrOf(0, per, i, g)
      ensures inodeBlocks == old(inodeBlocks)[ino := old(inodeBlocks)[ino] + blockSize / INODE_BLOCK_SIZE]
    {
      hide InGroup, GroupCnt, Zeros, Sum, Allocated, AddrOf;
      Take(ino, g, b, i);
      fblock := AddrOf(0, per, i, g);
      TakenAt(old(bitmaps), g, i);
    }

    lemma {:induction false} NoneFree(g: nat, i: nat)
      requires Valid() && g < |bitmaps| == |free| && free[g] == 0
      ensures 0 <= InGroup(total, per, g) <= |bitmaps[g]| && AllSet(bitmaps[g], i, InGroup(total, per, g))
    {
      hide InGroup, Zeros;
      FullGroup(bitmaps, free, total, per, g);
    }

    lemma {:induction false} SetUpTo(bits: seq<bool>, i: nat, j: nat)
      requires j <= |bits| && forall k :: i <= k < j ==> bits[k]
      ensures AllSet(bits, i, j)
    {
    }

    /** Tries the group of the goal: the goal itself, the bits near it, and the rest behind it. */
    method GoalGroup(ino: nat, goal: nat) returns (done: bool, fblock: nat)
      requires Valid() && ino in inodeBlocks && goal < total
      modifies this`bitmaps, this`free, this`sbFree, this`inodeBlocks
      ensures Valid()
      ensures done ==> Allocated(old(bitmaps), fblock) && sbFree == old(sbFree) - 1
      ensures done ==> inodeBlocks == old(inodeBlocks)[ino := old(inodeBlocks)[ino] + blockSize / INODE_BLOCK_SIZE]
      ensures !done ==>
              bitmaps == old(bitmaps) && free == old(free) && sbFree == old(sbFree) && inodeBlocks == old(inodeBlocks)
      ensures HasBit(old(bitmaps), per, goal) && (!old(InUse(goal)) ==> done && fblock == goal)
      ensures done ==>
                && Nearest(old(bitmaps), goal, fblock) && GroupOf(0, per, fblock) == GroupOf(0, per, goal)
                && IdxOf(0, per, goal) <= IdxOf(0, per, fblock)
      ensures !done ==>
                var g := GroupOf(0, per, goal);
                0 <= InGroup(total, per, g) <= |bitmaps[g]|
                && AllSet(bitmaps[g], IdxOf(0, per, goal), InGroup(total, per, g))
    {
      hide InGroup, GroupCnt, Zeros, Sum, GroupOf, IdxOf, AddrOf, AllSet, Answer, ByteUp, Allocated, Nearest;
      HasBits(bitmaps, free, total, per, goal);
      AddrRoundTrip(0, per, goal);
      var bgId, idxInBg := GroupOf(0, per, goal), IdxOf(0, per, goal);
      var blkInBg: int := InGroup(total, per, bgId);
      if !InUse(goal) {
        BitFree(bgId, idxInBg);
      }
      if free[bgId] == 0 {
        NoneFree(bgId, idxInBg);
        return false, 0;
      }
      var b := Load(bgId);
      if !b[idxInBg] {
        SetUpTo(bitmaps[bgId], idxInBg, idxInBg);
        NearestHere(goal, idxInBg);
        fblock := TakeAt(ino, bgId, b, idxInBg);
        return true, fblock;
      }
      var endIdx := (idxInBg + 63) / 64 * 64;
      if endIdx > blkInBg {
        endIdx := blkInBg;
      }
      var tmpIdx := idxInBg + 1;
      while tmpIdx < endIdx
        invariant idxInBg < tmpIdx && (tmpIdx <= endIdx || tmpIdx == idxInBg + 1)
        invariant forall k :: idxInBg <= k < tmpIdx ==> b[k]
      {
        if !b[tmpIdx] {
          SetUpTo(bitmaps[bgId], idxInBg, tmpIdx);
          NearestHere(goal, tmpIdx);
          fblock := TakeAt(ino, bgId, b, tmpIdx);
          return true, fblock;
        }
        tmpIdx := tmpIdx + 1;
      }
      NearTried(bgId, idxInBg, tmpIdx);
      var rel := BitFindClr(b, idxInBg, blkInBg);
      if rel.Some? {
        NearestHere(goal, rel.value);
        fblock := TakeAt(ino, bgId, b, rel.value);
        return true, fblock;
      }
      return false, 0;
    }

    /** Allocates a block for an inode, the goal if it is free, else one behind it in its group, else
        the first free one of a later group: ext4_balloc_alloc_block. It fails only if the volume
        has no free block. */
    method AllocBlock(ino: nat, goal: nat) returns (err: Err, fblock: nat)
      requires Valid() && ino in inodeBlocks && goal < total
      modifies this`bitmaps, this`free, this`sbFree, this`inodeBlocks
      ensures Valid() && (err == ENOSPC <==> old(sbFree) == 0)
      ensures err == EOK ==> Allocated(old(bitmaps), fblock) && sbFree == old(sbFree) - 1
      ensures err == EOK ==>
              inodeBlocks == old(inodeBlocks)[ino := old(inodeBlocks)[ino] + blockSize / INODE_BLOCK_SIZE]
      ensures err == ENOSPC ==>
              bitmaps == old(bitmaps) && free == old(free) && sbFree == old(sbFree) && inodeBlocks == old(inodeBlocks)
      ensures HasBit(old(bitmaps), per, goal) && (!old(InUse(goal)) ==> err == EOK && fblock == goal)
      ensures err == EOK ==> Nearest(old(bitmaps), goal, fblock)
    {
      hide InGroup, GroupCnt, Zeros, Sum, GroupOf, IdxOf, AddrOf, AllSet, Answer, ByteUp, Allocated, Used,
          Nearest;
      HasBits(bitmaps, free, total, per, goal);
      SumZero(free);
      var bgId := GroupOf(0, per, goal);
      var done;
      done, fblock := GoalGroup(ino, goal);
      if done {
        return EOK, fblock;
      }
      var groups := |bitmaps|;
      NextGroup(bgId, groups);
      var bgid := (bgId + 1) % groups;
      var count := groups;
      while count > 0
        invariant Valid() && bitmaps == old(bitmaps) && free == old(free) && sbFree == old(sbFree)
                  && inodeBlocks == old(inodeBlocks)
        invariant 0 <= count <= groups == |free| && bgid < groups
        invariant count > 0 ==>
                  bgid == if bgId + 1 + (groups - count) < groups then bgId + 1 + (groups - count) else bgId + 1 - count
        invariant forall g :: 0 <= g < groups && (bgId < g < bgId + 1 + (groups - count) || g < bgId + 1 - count) ==>
                    free[g] == 0
      {
        if free[bgid] != 0 {
          var b := Load(bgid);
          SearchAll(bgid);
          var rel := BitFindClr(b, 0, InGroup(total, per, bgid));
          if rel.Some? {
            NearestLater(goal, bgid, rel.value);
            fblock := TakeAt(ino, bgid, b, rel.value);
            return EOK, fblock;
          }
        }
        NextGroup(bgid, groups);
        bgid := (bgid + 1) % groups;
        count := count - 1;
      }
      return ENOSPC, 0;
    }

    /** Allocates one given block if it is free: ext4_balloc_try_alloc_block. */
    method TryAllocBlock(ino: nat, baddr: nat) returns (isFree: bool)
      requires Valid() && ino in inodeBlocks && baddr < total
      modifies this`bitmaps, this`free, this`sbFree, this`inodeBlocks
      ensures Valid() && HasBit(old(bitmaps), per, baddr) && isFree == !old(InUse(baddr))
      ensures isFree ==> Allocated(old(bitmaps), baddr) && sbFree == old(sbFree) - 1
      ensures isFree ==> inodeBlocks == old(inodeBlocks)[ino := old(inodeBlocks)[ino] + blockSize / INODE_BLOCK_SIZE]
      ensures !isFree ==>
              bitmaps == old(bitmaps) && free == old(free) && sbFree == old(sbFree) && inodeBlocks == old(inodeBlocks)
    {
      hide InGroup, GroupCnt, Zeros, Sum, GroupOf, IdxOf, AddrOf, Allocated;
      HasBits(bitmaps, free, total, per, baddr);
      AddrRoundTrip(0, per, baddr);
      var blockGroup, indexInGroup := GroupOf(0, per, baddr), IdxOf(0, per, baddr);
      var b := Load(blockGroup);
      isFree := !b[indexInGroup];
      if isFree {
        var fblock := TakeAt(ino, blockGroup, b, indexInGroup);
      }
    }

    /** Frees one block of an inode: ext4_balloc_free_block. The counters stay right if and only if the
        block was in use; the source does not look. */
    method FreeBlock(ino: nat, baddr: nat)
      requires Valid() && ino in inodeBlocks && baddr < total && inodeBlocks[ino] >= blockSize / INODE_BLOCK_SIZE
      modifies this`bitmaps, this`free, this`sbFree, this`inodeBlocks
      ensures HasBit(old(bitmaps), per, baddr) && (Valid() <==> old(InUse(baddr)))
      ensures bitmaps == WithBit(old(bitmaps), GroupOf(0, per, baddr), IdxOf(0, per, baddr), false)
              && sbFree == old(sbFree) + 1
      ensures inodeBlocks == old(inodeBlocks)[ino := old(inodeBlocks)[ino] - blockSize / INODE_BLOCK_SIZE]
    {
      hide InGroup, GroupCnt, Zeros, Sum, GroupOf, IdxOf, AddrOf;
      HasBits(bitmaps, free, total, per, baddr);
      var bgId, indexInGroup := GroupOf(0, per, baddr), IdxOf(0, per, baddr);
      BitCounted(bitmaps, free, total, per, bgId, indexInGroup, false);
      SumPut(free, bgId, free[bgId] + 1);
      var b := Load(bgId);
      b[indexInGroup] := false;
      bitmaps := bitmaps[bgId := b[..]];
      sbFree := sbFree + 1;
      inodeBlocks := inodeBlocks[ino := inodeBlocks[ino] - blockSize / INODE_BLOCK_SIZE];
      free := free[bgId := free[bgId] + 1];
    }

    /** The part of a run that lies in one group: the body of the loop in ext4_balloc_free_blocks. */
    method FreeRun(ino: nat, g: nat, idxFirst: nat, freeCnt: nat, ghost first: nat)
      requires Valid() && ino in inodeBlocks && freeCnt > 0 && first + freeCnt <= total
      requires g == GroupOf(0, per, first) && idxFirst == IdxOf(0, per, first) && idxFirst + freeCnt <= per
      requires forall a :: first <= a < first + freeCnt ==> HasBit(bitmaps, per, a) && Used(bitmaps, per, a)
      requires inodeBlocks[ino] >= Units(freeCnt)
      modifies this`bitmaps, this`free, this`sbFree, this`inodeBlocks
      ensures Valid() && sbFree == old(sbFree) + freeCnt && Freed(old(bitmaps), bitmaps, first, first + freeCnt)
      ensures inodeBlocks == old(inodeBlocks)[ino := old(inodeBlocks)[ino] - Units(freeCnt)]
    {
      hide InGroup, GroupCnt, Zeros, Sum, GroupOf, IdxOf, AddrOf, Used, HasBit, Counted;
      RunCleared(bitmaps, free, total, per, first, freeCnt);
      SameCount(g);
      SumPut(free, g, free[g] + freeCnt);
      var b := Load(g);
      BitsFree(b, idxFirst, freeCnt);
      bitmaps := bitmaps[g := b[..]];
      sbFree := sbFree + freeCnt;
      inodeBlocks := inodeBlocks[ino := inodeBlocks[ino] - Units(freeCnt)];
      free := free[g := free[g] + freeCnt];
    }

    /** Frees a run of blocks of an inode, which may go over several groups:
        ext4_balloc_free_blocks. */
    method FreeBlocks(ino: nat, first0: nat, count0: nat)
      requires Valid() && ino in inodeBlocks && count0 > 0 && first0 + count0 <= total
      requires forall a :: first0 <= a < first0 + count0 ==> HasBit(bitmaps, per, a) && Used(bitmaps, per, a)
      requires inodeBlocks[ino] >= Units(count0)
      modifies this`bitmaps, this`free, this`sbFree, this`inodeBlocks
      ensures Valid() && sbFree == old(sbFree) + count0
      ensures inodeBlocks == old(inodeBlocks)[ino := old(inodeBlocks)[ino] - Units(count0)]
      ensures Freed(old(bitmaps), bitmaps, first0, first0 + count0)
    {
      hide InGroup, GroupCnt, Zeros, Sum, GroupOf, IdxOf, AddrOf, Used, HasBit, Freed, Counted, Units;
      var first: nat, count: nat := first0, count0;
      var bgFirst, bgLast := GroupOf(0, per, first), GroupOf(0, per, first + count - 1);
      NoneFreed(first);
      RunCut(per, first, count, if count > per - IdxOf(0, per, first) then per - IdxOf(0, per, first) else count);
      NoUnits();
      while bgFirst <= bgLast
        invariant Valid() && first + count == first0 + count0 && first0 <= first && ino in inodeBlocks
        invariant count > 0 <==> bgFirst <= bgLast
        invariant count > 0 ==> bgFirst == GroupOf(0, per, first) && bgLast == GroupOf(0, per, first + count - 1)
        invariant sbFree == old(sbFree) + (first - first0)
        invariant inodeBlocks == old(inodeBlocks)[ino := inodeBlocks[ino]]
                  && inodeBlocks[ino] == old(inodeBlocks)[ino] - Units(first - first0)
        invariant Freed(old(bitmaps), bitmaps, first0, first)
        decreases count
      {
        var idxFirst := IdxOf(0, per, first);
        var freeCnt := per - idxFirst;
        freeCnt := if count > freeCnt then freeCnt else count;
        RunCut(per, first, count, freeCnt);
        StillUsed(old(bitmaps), first0, first, count0);
        Shares(count0, first - first0, freeCnt);
        if freeCnt < count {
          RunCut(per, first + freeCnt, count - freeCnt,
                 if count - freeCnt > per - IdxOf(0, per, first + freeCnt)
                 then per - IdxOf(0, per, first + freeCnt)
                 else count - freeCnt);
        }
        ghost var now := bitmaps;
        FreeRun(ino, bgFirst, idxFirst, freeCnt, first);
        FreedMore(old(bitmaps), first0, first, freeCnt, now);
        count := count - freeCnt;
        first := first + freeCnt;
        bgFirst := bgFirst + 1;
      }
      assert count == 0;
    }

    /** The blocks from a up to b are free, the others as they were. */
    ghost predicate Freed(was: seq<seq<bool>>, now: seq<seq<bool>>, a: nat, b: nat) {
      per > 0
          && forall x :: 0 <= x < total ==>
               HasBit(was, per, x) && HasBit(now, per, x) && Used(now, per, x) == (Used(was, per, x) && !(a <= x < b))
    }

    lemma {:induction false} NoneFreed(a: nat)
      requires Valid()
      ensures Freed(bitmaps, bitmaps, a, a)
    {
      hide InGroup, GroupCnt, Zeros, Sum, GroupOf, IdxOf, AddrOf, Counted, Used;
      forall x | 0 <= x < total
        ensures HasBit(bitmaps, per, x)
      {
        HasBits(bitmaps, free, total, per, x);
      }
    }

    lemma {:induction false} StillUsed(was: seq<seq<bool>>, a: nat, b: nat, count: nat)
      requires per > 0 && a <= b && Freed(was, bitmaps, a, b) && a + count <= total
      requires forall x :: a <= x < a + count ==> HasBit(was, per, x) && Used(was, per, x)
      ensures forall x :: b <= x < a + count ==> HasBit(bitmaps, per, x) && Used(bitmaps, per, x)
    {
    }

    lemma {:induction false} FreedMore(was: seq<seq<bool>>, a: nat, b: nat, count: nat, mid: seq<seq<bool>>)
      requires a <= b && Freed(was, mid, a, b) && Freed(mid, bitmaps, b, b + count)
      ensures Freed(was, bitmaps, a, b + count)
    {
      hide HasBit, Used;
    }

    lemma {:induction false} SameCount(g: nat)
      requires Valid() && g < |bitmaps|
      ensures g < |free|
    {
    }

    lemma {:induction false} NoUnits()
      ensures Units(0) == 0
    {
    }

    lemma {:induction false} Shares(all: nat, done: nat, part: nat)
      requires done + part <= all
      ensures Units(done + part) == Units(done) + Units(part) && Units(done + part) <= Units(all)
    {
      var each := blockSize / INODE_BLOCK_SIZE;
      assert all * each == (done + part) * each + (all - done - part) * each;
    }
  }

  /** A volume of one group with blocks of one byte: freeing block 5 while it is free makes the group
      claim nine free blocks out of eight. */
  lemma {:induction false} FreedTwice()
    ensures var bits := seq(8, _ => false);
            && Counted([bits], [8], 8, 8) && !Used([bits], 8, 5)
            && !Counted(WithBit([bits], GroupOf(0, 8, 5), IdxOf(0, 8, 5), false), [9], 8, 8)
  {
    var bits := seq(8, _ => false);
    ZerosAll(bits, 8);
    assert GroupCnt(8, 8) == 1 && InGroup(8, 8, 0) == 8;
    BitCounted([bits], [8], 8, 8, 0, 5, false);
  }
}
