/** The block cache over a disk: lwext4/src/ext4_bcache.c, lwext4/include/ext4_bcache.h and the
    cached half of lwext4/src/ext4_blockdev.c. Trees of buffers are maps and sets. */
module BlockCache {
  import opened Common

  datatype Err = EOK | ENXIO

  /** Block numbers have 64 bits. */
  const BLOCKS: nat := 0x1_0000_0000_0000_0000

  /** ext4_buf without its tree links: the four state bits, the reference count, the LRU id, and
      whether the buffer is on the dirty list. */
  datatype Buf = Buf(data: Block, uptodate: bool, dirty: bool, flush: bool, tmp: bool, refctr: nat, lruId: nat,
          onList: bool)

  /** What a reader of the device should see in each block: the buffer's data if they are valid,
      else the disk's. */
  function ContentOf(bufs: map<nat, Buf>, disk: seq<Block>): (c: seq<Block>)
    ensures |c| == |disk|
    ensures forall i {:trigger c[i]} :: 0 <= i < |c| ==>
              c[i] == if i in bufs && bufs[i].uptodate then bufs[i].data else disk[i]
  {
    seq(|disk|, i requires 0 <= i < |disk| => if i in bufs && bufs[i].uptodate then bufs[i].data else disk[i])
  }

  /** Taking a node out of a list. */
  function Without(s: seq<nat>, x: nat): (r: seq<nat>)
    ensures forall y :: y in r <==> y in s && y != x
    ensures |r| <= |s| && (x in s ==> |r| < |s|)
  {
    if s == [] then [] else (if s[0] == x then [] else [s[0]]) + Without(s[1..], x)
  }

  predicate Distinct(s: seq<nat>) {
    forall i, j :: 0 <= i < j < |s| ==> s[i] != s[j]
  }

  lemma {:induction false} WithoutDistinct(s: seq<nat>, x: nat)
    requires Distinct(s)
    ensures Distinct(Without(s, x))
  {
    if s != [] {
      WithoutDistinct(s[1..], x);
      var r := Without(s[1..], x);
      assert s[0] !in s[1..];
      if s[0] == x {
        assert [] + r == r;
      } else {
        assert s[0] !in r;
      }
    }
  }

  /** Every buffer by itself: valid and clean means the same as on disk, dirty means valid. */
  ghost predicate BufOk(b: Buf, onDisk: Block) {
    && (b.dirty ==> b.uptodate)
    && (b.uptodate && !b.dirty ==> b.data == onDisk)
    && (b.onList ==> b.refctr == 0 && b.dirty)
  }

  ghost predicate BufsOk(bufs: map<nat, Buf>, disk: seq<Block>, lruCtr: nat) {
    forall l :: l in bufs ==> l < |disk| && BufOk(bufs[l], disk[l]) && bufs[l].lruId <= lruCtr
  }

  ghost predicate IdsOk(bufs: map<nat, Buf>) {
    forall k, l :: k in bufs && l in bufs && k != l ==> bufs[k].lruId != bufs[l].lruId
  }

  ghost predicate LruOk(bufs: map<nat, Buf>, lru: set<nat>) {
    forall l :: l in lru <==> l in bufs && bufs[l].refctr == 0
  }

  ghost predicate ListOk(bufs: map<nat, Buf>, list: seq<nat>) {
    Distinct(list) && forall l :: l in list <==> l in bufs && bufs[l].onList
  }

  /** What every step keeps: lru_root holds exactly the unreferenced buffers, the dirty list
      exactly the buffers marked to be on it, ref_blocks counts the buffers. */
  ghost predicate Base(bufs: map<nat, Buf>, lru: set<nat>, list: seq<nat>, disk: seq<Block>, lruCtr: nat,
          refBlocks: nat)
  {
    BufsOk(bufs, disk, lruCtr) && IdsOk(bufs) && LruOk(bufs, lru) && ListOk(bufs, list) && refBlocks == |bufs|
  }

  /** Between calls: dirty buffers nobody uses wait on the list, and only with write-back on. */
  ghost predicate Settled(bufs: map<nat, Buf>, list: seq<nat>, writeBack: nat) {
    && (forall l :: l in bufs && bufs[l].refctr == 0 && bufs[l].dirty ==> bufs[l].onList)
    && (writeBack == 0 ==> list == [])
  }

  /** With write-back off and no buffer in use the disk holds everything. */
  lemma {:induction false} AllOnDisk(bufs: map<nat, Buf>, lru: set<nat>, list: seq<nat>, disk: seq<Block>, lruCtr: nat,
          refBlocks: nat)
    requires Base(bufs, lru, list, disk, lruCtr, refBlocks) && Settled(bufs, list, 0)
    ensures forall l :: l in bufs && bufs[l].refctr == 0 && bufs[l].uptodate ==> l < |disk| && bufs[l].data == disk[l]
    ensures (forall l :: l in bufs ==> bufs[l].refctr == 0) ==> ContentOf(bufs, disk) == disk
  {
    forall l | l in bufs && bufs[l].refctr == 0 && bufs[l].uptodate
      ensures l < |disk| && bufs[l].data == disk[l]
    {
      assert BufOk(bufs[l], disk[l]) && l !in list;
    }
  }

  lemma {:induction false} LowestExists(bufs: map<nat, Buf>, lru: set<nat>) returns (l: nat)
    requires lru != {} && forall k :: k in lru ==> k in bufs
    ensures l in lru && forall k :: k in lru ==> bufs[l].lruId <= bufs[k].lruId
    decreases lru
  {
    l :| l in lru;
    if lru != {l} {
      var k := LowestExists(bufs, lru - {l});
      if bufs[k].lruId < bufs[l].lruId {
        l := k;
      }
    }
  }

  class Cache {
    /** Buffers the cache is meant to hold at most. */
    const cnt: nat
    var bufs: map<nat, Buf>
    var lru: set<nat>
    var dirtyList: seq<nat>
    var lruCtr: nat
    var refBlocks: nat
    var maxRefBlocks: nat
    /** cache_write_back, an unsigned 32-bit number. */
    var writeBack: nat
    var disk: seq<Block>

    ghost predicate Ready()
      reads this
    {
      Base(bufs, lru, dirtyList, disk, lruCtr, refBlocks)
    }

    ghost predicate Valid()
      reads this
    {
      Ready() && Settled(bufs, dirtyList, writeBack)
    }

    function Content(): (c: seq<Block>)
      reads this
    {
      ContentOf(bufs, disk)
    }

    constructor (cnt: nat, disk: seq<Block>)
      ensures Valid() && Content() == disk && this.cnt == cnt && this.disk == disk && writeBack == 0 && bufs == map[]
    {
      this.cnt, this.disk := cnt, disk;
      bufs, lru, dirtyList := map[], {}, [];
      lruCtr, refBlocks, maxRefBlocks, writeBack := 0, 0, 0, 0;
    }

    /** Writes a dirty buffer to disk: ext4_block_flush_buf. */
    method FlushBuf(l: nat)
      requires Ready() && l in bufs
      modifies this`bufs, this`dirtyList, this`disk
      ensures Ready() && Content() == old(Content())
      ensures if old(bufs)[l].dirty then
                && bufs == old(bufs)[l := old(bufs)[l].(dirty := false, onList := false)]
                && dirtyList == (if old(bufs)[l].onList then Without(old(dirtyList), l) else old(dirtyList))
                && disk == old(disk)[l := old(bufs)[l].data]
              else bufs == old(bufs) && dirtyList == old(dirtyList) && disk == old(disk)
    {
      hide Base, ContentOf;
      var b := bufs[l];
      BufAt(bufs, lru, dirtyList, disk, lruCtr, refBlocks, l);
      FlushOk(bufs, lru, dirtyList, disk, lruCtr, refBlocks, l);
      if b.dirty && b.uptodate {
        disk := disk[l := b.data];
        if b.onList {
          dirtyList := Without(dirtyList, l);
          b := b.(onList := false);
        }
        bufs := bufs[l := b.(dirty := false)];
      }
    }

    /** Takes a buffer out of the cache: ext4_bcache_drop_buf. What is dirty is lost. */
    method DropBuf(l: nat)
      requires Ready() && l in bufs
      modifies this`bufs, this`lru, this`dirtyList, this`refBlocks
      ensures Ready() && bufs == old(bufs) - {l} && lru == old(lru) - {l} && refBlocks == old(refBlocks) - 1
      ensures dirtyList == if old(bufs)[l].onList then Without(old(dirtyList), l) else old(dirtyList)
      ensures !old(bufs)[l].dirty ==> Content() == old(Content())
    {
      hide Base, ContentOf;
      var b := bufs[l];
      BufAt(bufs, lru, dirtyList, disk, lruCtr, refBlocks, l);
      DropOk(bufs, lru, dirtyList, disk, lruCtr, refBlocks, l);
      if b.refctr == 0 {
        lru := lru - {l};
      }
      assert lru == old(lru) - {l};
      bufs := bufs - {l};
      if b.dirty && b.onList {
        dirtyList := Without(dirtyList, l);
      }
      refBlocks := refBlocks - 1;
    }

    /** One buffer that nobody uses goes, written out before if it is dirty. */
    method Evict(l: nat)
      requires Ready() && l in lru && l in bufs
      modifies this`bufs, this`lru, this`dirtyList, this`disk, this`refBlocks
      ensures Ready() && Content() == old(Content()) && refBlocks == old(refBlocks) - 1
      ensures bufs == old(bufs) - {l} && lru == old(lru) - {l} && l < |disk| == |old(disk)|
      ensures dirtyList == if old(bufs)[l].onList then Without(old(dirtyList), l) else old(dirtyList)
      ensures disk == if old(bufs)[l].dirty then old(disk)[l := old(bufs)[l].data] else old(disk)
    {
      hide Base, ContentOf, Settled;
      BufAt(bufs, lru, dirtyList, disk, lruCtr, refBlocks, l);
      if bufs[l].dirty {
        FlushBuf(l);
      }
      DropBuf(l);
      assert bufs == old(bufs) - {l};
    }

    /** Makes room while the cache is full and has buffers nobody uses, least recently used first:
        ext4_block_cache_shake. */
    method Shake()
      requires Valid()
      modifies this`bufs, this`lru, this`dirtyList, this`disk, this`refBlocks
      ensures Valid() && Content() == old(Content())
      ensures lru == {} || refBlocks < cnt
      ensures if bufs == old(bufs) then
                lru == old(lru) && dirtyList == old(dirtyList) && disk == old(disk) && refBlocks == old(refBlocks)
              else
                cnt <= refBlocks + 1 && cnt <= old(refBlocks)
      ensures forall k :: k in bufs ==> k in old(bufs) && bufs[k] == old(bufs)[k]
      ensures forall k :: k in old(bufs) && k !in bufs ==> k in old(lru)
      ensures WrittenOnly(old(bufs), bufs, old(disk), disk)
      ensures forall k, l :: k in old(bufs) && k !in bufs && l in lru ==>
                l in bufs && old(bufs)[k].lruId < bufs[l].lruId
    {
      hide Base, ContentOf, Settled, Evicted, WrittenOnly;
      WrittenNone(bufs, disk);
      InLru(bufs, lru, dirtyList, disk, lruCtr, refBlocks);
      NoneEvicted(bufs, lru);
      ghost var gone: set<nat> := {};
      while lru != {} && cnt <= refBlocks
        invariant Valid() && Content() == old(Content()) && Evicted(old(bufs), old(lru), bufs, lru)
        invariant if gone == {} then
                    bufs == old(bufs) && lru == old(lru) && dirtyList == old(dirtyList) && disk == old(disk)
                    && refBlocks == old(refBlocks)
                  else
                    cnt <= refBlocks + 1 && cnt <= old(refBlocks)
        invariant forall k :: k in gone ==> k in old(bufs) && k !in bufs
        invariant WrittenOnly(old(bufs), bufs, old(disk), disk)
        decreases lru
      {
        InLru(bufs, lru, dirtyList, disk, lruCtr, refBlocks);
        ghost var low := LowestExists(bufs, lru);
        var l :| l in lru && forall k :: k in lru ==> bufs[l].lruId <= bufs[k].lruId;
        EvictMore(old(bufs), old(lru), bufs, lru, dirtyList, disk, lruCtr, refBlocks, l, writeBack);
        ghost var bufs1, disk1 := bufs, disk;
        EvictedAt(old(bufs), old(lru), bufs, lru);
        Evict(l);
        WrittenMore(old(bufs), bufs1, old(disk), disk1, l, disk);
        gone := gone + {l};
      }
      EvictedAt(old(bufs), old(lru), bufs, lru);
    }

    /** Looks a buffer up and takes a reference: ext4_bcache_find_get. The first reference takes it
        off the LRU tree and off the dirty list. */
    method FindGet(l: nat) returns (found: bool)
      requires Valid()
      modifies this`bufs, this`lru, this`dirtyList, this`lruCtr
      ensures Valid() && Content() == old(Content()) && found == (l in old(bufs))
      ensures var first := found && old(bufs)[l].refctr == 0;
              && bufs == (if found then
                            old(bufs)[l := Taken(old(bufs)[l], if first then old(lruCtr) + 1 else old(bufs)[l].lruId)]
                          else old(bufs))
              && lruCtr == (if first then old(lruCtr) + 1 else old(lruCtr))
              && lru == (if first then old(lru) - {l} else old(lru))
              && dirtyList == if first && old(bufs)[l].onList then Without(old(dirtyList), l) else old(dirtyList)
    {
      hide Base, ContentOf, Settled;
      found := l in bufs;
      if found {
        TakeOk(bufs, lru, dirtyList, disk, lruCtr, refBlocks, writeBack, l);
        var b := bufs[l];
        if b.refctr == 0 {
          lruCtr := lruCtr + 1;
          b := b.(lruId := lruCtr);
          lru := lru - {l};
          if b.dirty && b.onList {
            dirtyList := Without(dirtyList, l);
            b := b.(onList := false);
          }
        }
        bufs := bufs[l := b.(refctr := b.refctr + 1)];
      }
    }

    /** The buffer of a block, a new one if there is none: ext4_bcache_alloc. junk is what the new
        buffer's memory holds. */
    method Alloc(l: nat, junk: Block) returns (isNew: bool)
      requires Valid() && l < |disk|
      modifies this`bufs, this`lru, this`dirtyList, this`lruCtr, this`refBlocks, this`maxRefBlocks
      ensures Valid() && Content() == old(Content()) && isNew == (l !in old(bufs))
      ensures Held(old(bufs), bufs, l)
      ensures isNew ==>
                && bufs == old(bufs)[l := Buf(junk, false, false, false, false, 1, lruCtr, false)]
                && lruCtr == old(lruCtr) + 1 && refBlocks == old(refBlocks) + 1
                && lru == old(lru) && dirtyList == old(dirtyList)
      ensures !isNew ==> var first := old(bufs)[l].refctr == 0;
                && bufs ==
                   old(bufs)[l := Taken(old(bufs)[l], if first then old(lruCtr) + 1 else old(bufs)[l].lruId)]
                && refBlocks == old(refBlocks) && lru == (if first then old(lru) - {l} else old(lru))
    {
      hide Base, ContentOf, Settled;
      var found := FindGet(l);
      if found {
        return false;
      }
      AllocOk(bufs, lru, dirtyList, disk, lruCtr, refBlocks, writeBack, l,
              Buf(junk, false, false, false, false, 1, lruCtr + 1, false));
      refBlocks := refBlocks + 1;
      if maxRefBlocks < refBlocks {
        maxRefBlocks := refBlocks;
      }
      lruCtr := lruCtr + 1;
      bufs := bufs[l := Buf(junk, false, false, false, false, 1, lruCtr, false)];
      isNew := true;
    }

    /** Gives a reference back: ext4_bcache_free, and ext4_block_set. With the last one a dirty buffer
        is written or put on the dirty list, and one that is not valid, or temporary, goes. */
    method Free(l: nat)
      requires Valid() && l != 0 && l in bufs && bufs[l].refctr > 0
      modifies this`bufs, this`lru, this`dirtyList, this`disk, this`refBlocks
      ensures Valid() && Content() == old(Content())
      ensures forall k :: k != l ==> (k in bufs <==> k in old(bufs)) && (k in bufs ==> bufs[k] == old(bufs)[k])
      ensures l in bufs <==> old(bufs)[l].refctr > 1 || (old(bufs)[l].uptodate && !old(bufs)[l].tmp)
      ensures l in bufs ==>
              bufs[l].refctr == old(bufs)[l].refctr - 1 && bufs[l].data == old(bufs)[l].data
              && bufs[l].uptodate == old(bufs)[l].uptodate
      ensures l in bufs && bufs[l].dirty ==> old(bufs)[l].dirty
      ensures l in bufs ==>
              bufs[l].lruId == old(bufs)[l].lruId && bufs[l].tmp == old(bufs)[l].tmp
      ensures var b := old(bufs)[l]; var toDisk := b.refctr == 1 && b.dirty && !Waits(b, writeBack);
              && disk == (if toDisk then old(disk)[l := b.data] else old(disk))
              && (l in bufs && !toDisk ==> bufs[l].dirty == b.dirty && bufs[l].flush == b.flush)
              && (l in bufs && b.dirty && b.refctr == 1 && Waits(b, writeBack) ==> l in dirtyList)
      ensures old(bufs)[l].refctr == 1 && (writeBack == 0 || old(bufs)[l].flush || old(bufs)[l].tmp) ==>
              disk[l] == Content()[l]
    {
      hide Base, ContentOf, Settled;
      FreeOk(bufs, lru, dirtyList, disk, lruCtr, refBlocks, writeBack, l);
      BufAt(bufs, lru, dirtyList, disk, lruCtr, refBlocks, l);
      bufs := bufs[l := bufs[l].(refctr := bufs[l].refctr - 1)];
      if bufs[l].refctr == 0 {
        lru := lru + {l};
        if bufs[l].dirty && bufs[l].uptodate {
          if writeBack > 0 && !bufs[l].flush && !bufs[l].tmp {
            if !bufs[l].onList {
              dirtyList := [l] + dirtyList;
              bufs := bufs[l := bufs[l].(onList := true)];
              assert bufs == old(bufs)[l := bufs[l]];
            }
          } else {
            FlushBuf(l);
            FlagOk(bufs, lru, dirtyList, disk, lruCtr, refBlocks, l);
            bufs := bufs[l := bufs[l].(flush := false)];
          }
        }
        if !bufs[l].uptodate || bufs[l].tmp {
          DropBuf(l);
        }
        SettledAt(old(bufs), old(dirtyList), bufs, dirtyList, writeBack, l);
        SameOnDisk(bufs, lru, dirtyList, disk, lruCtr, refBlocks, l);
      }
    }

    /** A reference to a block's buffer without reading it: ext4_block_get_noread. */
    method GetNoread(l: nat, junk: Block) returns (err: Err)
      requires Valid()
      modifies this`bufs, this`lru, this`dirtyList, this`lruCtr, this`refBlocks, this`maxRefBlocks, this`disk
      ensures Valid() && Content() == old(Content()) && err == (if l < |old(disk)| then EOK else ENXIO)
              && |disk| == |old(disk)|
      ensures err == ENXIO ==> bufs == old(bufs) && disk == old(disk)
      ensures err == EOK ==> l in bufs && bufs[l].refctr == if l in old(bufs) then old(bufs)[l].refctr + 1 else 1
      ensures InUseKept(old(bufs), bufs, l)
      ensures old(refBlocks) < cnt ==> disk == old(disk) && OthersKept(old(bufs), bufs, l)
      ensures forall k :: k in old(bufs) && k !in bufs ==> k in old(lru)
    {
      hide Base, ContentOf, Settled;
      if l >= |disk| {
        return ENXIO;
      }
      InLru(bufs, lru, dirtyList, disk, lruCtr, refBlocks);
      ghost var c0 := Content();
      Shake();
      ghost var bufs1 := bufs;
      assert |Content()| == |c0|;
      var isNew := Alloc(l, junk);
      KeptThrough(old(bufs), old(lru), bufs1, bufs, l);
      return EOK;
    }

    /** A reference to a block's buffer with its contents: ext4_block_get. Whatever the cache held,
        the caller sees what was last written. */
    method Get(l: nat, junk: Block) returns (err: Err)
      requires Valid()
      modifies this`bufs, this`lru, this`dirtyList, this`lruCtr, this`refBlocks, this`maxRefBlocks, this`disk
      ensures Valid() && Content() == old(Content()) && err == (if l < |old(disk)| then EOK else ENXIO)
              && |disk| == |old(disk)|
      ensures err == EOK ==> l in bufs && bufs[l].uptodate && bufs[l].data == old(Content())[l]
      ensures err == EOK ==> bufs[l].refctr == if l in old(bufs) then old(bufs)[l].refctr + 1 else 1
      ensures InUseKept(old(bufs), bufs, l)
      ensures old(refBlocks) < cnt ==> disk == old(disk) && OthersKept(old(bufs), bufs, l)
      ensures forall k :: k in old(bufs) && k !in bufs ==> k in old(lru)
    {
      hide Base, Settled, ContentOf;
      err := GetNoread(l, junk);
      if err != EOK {
        return;
      }
      ReadIn(bufs, disk, l);
      if bufs[l].uptodate {
        return;
      }
      BufAt(bufs, lru, dirtyList, disk, lruCtr, refBlocks, l);
      StateOk(bufs, lru, dirtyList, disk, lruCtr, refBlocks, writeBack, l, disk[l], true, false);
      bufs := bufs[l := bufs[l].(data := disk[l], uptodate := true)];
    }

    /** A holder of the buffer changes its contents and marks it: ext4_bcache_set_dirty. */
    method Write(l: nat, data: Block)
      requires Valid() && l in bufs && bufs[l].refctr > 0
      modifies this`bufs
      ensures Valid() && l < |disk| && Content() == old(Content())[l := data]
      ensures bufs == old(bufs)[l := old(bufs)[l].(data := data, uptodate := true, dirty := true)]
    {
      hide Base, Settled;
      BufAt(bufs, lru, dirtyList, disk, lruCtr, refBlocks, l);
      StateOk(bufs, lru, dirtyList, disk, lruCtr, refBlocks, writeBack, l, data, true, true);
      bufs := bufs[l := bufs[l].(data := data, uptodate := true, dirty := true)];
    }

    /** Forgets what a buffer holds: ext4_bcache_invalidate_buf. */
    method InvalidateBuf(l: nat)
      requires Valid() && l in bufs
      modifies this`bufs, this`dirtyList
      ensures Valid() && l < |disk| && Content() == old(Content())[l := disk[l]]
      ensures bufs == old(bufs)[l := Blank(old(bufs)[l])]
    {
      hide Base, Settled;
      BufAt(bufs, lru, dirtyList, disk, lruCtr, refBlocks, l);
      ForgetOk(bufs, lru, dirtyList, disk, lruCtr, refBlocks, writeBack, l);
      var b := bufs[l];
      if b.dirty && b.onList {
        dirtyList := Without(dirtyList, l);
        b := b.(onList := false);
      }
      bufs := bufs[l := b.(uptodate := false, dirty := false)];
    }

    /** Forgets the buffers of a run of blocks: ext4_bcache_invalidate_lba. The walk over the tree
        begins at the buffer of the first block, and not at all if that is not in the cache. It goes on to
        the last block of the run, a number of 64 bits that wraps for no blocks from block 0 on. */
    method InvalidateLba(from: nat, count: nat)
      requires Valid() && from < BLOCKS && |disk| <= BLOCKS
      modifies this`bufs, this`dirtyList
      ensures Valid()
      ensures Content() ==
              Forgotten(old(Content()), disk, if from in old(bufs) then from else |disk|, Behind(from, count))
      ensures bufs.Keys == old(bufs).Keys
      ensures forall k :: k in bufs ==>
                bufs[k] == if from in bufs && from <= k < Behind(from, count) then Blank(old(bufs)[k]) else old(bufs)[k]
    {
      hide Base, Settled, ContentOf, Blank;
      if from !in bufs {
        return;
      }
      BufAt(bufs, lru, dirtyList, disk, lruCtr, refBlocks, from);
      KeysIn(bufs, lru, dirtyList, disk, lruCtr, refBlocks);
      var end := (from + count + (BLOCKS - 1)) % BLOCKS;
      var l := from;
      while l < |disk| && l <= end
        invariant from <= l <= |disk| && (l <= end + 1 || l == from)
        invariant Valid() && Content() == Forgotten(old(Content()), disk, from, l) && bufs.Keys == old(bufs).Keys
        invariant forall k :: k in bufs ==>
                    bufs[k] == if from <= k < l then Blank(old(bufs)[k]) else old(bufs)[k]
      {
        Uncached(bufs, disk, l);
        if l in bufs {
          InvalidateBuf(l);
        }
        l := l + 1;
      }
    }

    /** Writes a block out if its buffer is dirty: ext4_block_flush_lba. */
    method FlushLba(l: nat)
      requires Valid() && (l in bufs ==> l != 0)
      modifies this`bufs, this`lru, this`dirtyList, this`lruCtr, this`disk, this`refBlocks
      ensures Valid() && Content() == old(Content())
      ensures l < |disk| ==> disk[l] == Content()[l]
      ensures forall k :: k != l ==> (k in bufs <==> k in old(bufs)) && (k in bufs ==> bufs[k] == old(bufs)[k])
    {
      hide Base, ContentOf, Settled;
      var found := FindGet(l);
      if found {
        ghost var bufs1, list1 := bufs, dirtyList;
        FlushBuf(l);
        SettledAt(bufs1, list1, bufs, dirtyList, writeBack, l);
        BufAt(bufs, lru, dirtyList, disk, lruCtr, refBlocks, l);
        ghost var d := disk;
        assert !bufs[l].dirty;
        SameOnDisk(bufs, lru, dirtyList, disk, lruCtr, refBlocks, l);
        Free(l);
        CleanOnDisk(bufs, lru, dirtyList, disk, lruCtr, refBlocks, l);
      } else if l < |disk| {
        SameOnDisk(bufs, lru, dirtyList, disk, lruCtr, refBlocks, l);
      }
    }

    /** Writes out all that waits: ext4_block_cache_flush. */
    method CacheFlush()
      requires Ready() && Settled(bufs, dirtyList, 1)
      modifies this`bufs, this`dirtyList, this`disk
      ensures Valid() && Content() == old(Content()) && dirtyList == []
      ensures Flushed(old(bufs), old(dirtyList), old(disk), bufs, [], disk)
    {
      hide Base, ContentOf, Settled, Flushed;
      FlushedNone(bufs, lru, dirtyList, disk, lruCtr, refBlocks);
      while dirtyList != []
        invariant Ready() && Settled(bufs, dirtyList, 1) && Content() == old(Content())
        invariant Flushed(old(bufs), old(dirtyList), old(disk), bufs, dirtyList, disk)
        decreases |dirtyList|
      {
        var l := dirtyList[0];
        ListAt(bufs, lru, dirtyList, disk, lruCtr, refBlocks, l);
        BufAt(bufs, lru, dirtyList, disk, lruCtr, refBlocks, l);
        ghost var bufs0, list0, disk0 := bufs, dirtyList, disk;
        FlushBuf(l);
        SettledAny(bufs0, list0, bufs, dirtyList, l);
        FlushedMore(old(bufs), old(dirtyList), old(disk), bufs0, list0, disk0, l, bufs, dirtyList, disk);
      }
      SettledEmpty(bufs, writeBack);
    }

    /** Turns write-back on or off, nested: ext4_block_cache_write_back. The depth is counted in 32 bits. */
    method WriteBack(on: bool)
      requires Valid()
      modifies this`writeBack, this`bufs, this`dirtyList, this`disk
      ensures Valid() && Content() == old(Content())
      ensures writeBack == if on then (old(writeBack) + 1) % 0x1_0000_0000
                           else if old(writeBack) > 0 then old(writeBack) - 1 else 0
      ensures writeBack == 0 ==>
              forall l :: l in bufs && bufs[l].refctr == 0 && bufs[l].uptodate ==> l < |disk| && bufs[l].data == disk[l]
      ensures writeBack == 0 && (forall l :: l in bufs ==> bufs[l].refctr == 0) ==> disk == Content()
      ensures writeBack > 0 ==> bufs == old(bufs) && dirtyList == old(dirtyList) && disk == old(disk)
    {
      hide Base, ContentOf, Settled;
      Loosely(bufs, dirtyList, writeBack);
      if on {
        writeBack := (writeBack + 1) % 0x1_0000_0000;
      }
      if !on && writeBack > 0 {
        writeBack := writeBack - 1;
      }
      if writeBack > 0 {
        Deeper(bufs, dirtyList, writeBack);
        return;
      }
      CacheFlush();
      AllOnDisk(bufs, lru, dirtyList, disk, lruCtr, refBlocks);
    }

    /** Empties the cache: ext4_bcache_cleanup. */
    method Cleanup()
      requires Valid()
      modifies this`bufs, this`lru, this`dirtyList, this`disk, this`refBlocks
      ensures Valid() && bufs == map[] && disk == Content() == old(Content())
    {
      hide Base, ContentOf, Settled;
      var l := 0;
      while l < |disk|
        invariant 0 <= l <= |disk| && Ready() && Content() == old(Content())
        invariant forall k :: k in bufs ==> l <= k
      {
        if l in bufs {
          FlushBuf(l);
          DropBuf(l);
        }
        l := l + 1;
      }
      Emptied(bufs, lru, dirtyList, disk, lruCtr, refBlocks, writeBack);
    }
  }

  /** Of the buffers that waited, those not waiting any more are clean, and on disk; nothing else changed. */
  ghost predicate Flushed(bufs: map<nat, Buf>, list: seq<nat>, disk: seq<Block>, bufs': map<nat, Buf>,
          list': seq<nat>, disk': seq<Block>)
  {
    && bufs'.Keys == bufs.Keys && |disk'| == |disk| && (forall k :: k in list' ==> k in list)
    && (forall k :: k in bufs' ==>
          bufs'[k] == if k in list && k !in list' then bufs[k].(dirty := false, onList := false) else bufs[k])
    && (forall k {:trigger disk'[k]} :: 0 <= k < |disk'| ==>
          disk'[k] == if k in list && k !in list' && k in bufs then bufs[k].data else disk[k])
  }

  lemma {:induction false} FlushedNone(bufs: map<nat, Buf>, lru: set<nat>, list: seq<nat>, disk: seq<Block>,
          lruCtr: nat, refBlocks: nat)
    requires Base(bufs, lru, list, disk, lruCtr, refBlocks)
    ensures Flushed(bufs, list, disk, bufs, list, disk)
  {
  }

  lemma {:induction false} FlushedMore(bufs: map<nat, Buf>, list: seq<nat>, disk: seq<Block>, bufs1: map<nat, Buf>,
          list1: seq<nat>, disk1: seq<Block>, l: nat, bufs': map<nat, Buf>, list': seq<nat>, disk': seq<Block>)
    requires Flushed(bufs, list, disk, bufs1, list1, disk1) && l in list1 && l in bufs1 && l < |disk1|
    requires bufs' == bufs1[l := bufs1[l].(dirty := false, onList := false)] && list' == Without(list1, l)
    requires disk' == disk1[l := bufs1[l].data]
    ensures Flushed(bufs, list, disk, bufs', list', disk')
  {
    hide Without;
  }

  /** What a reader sees in a cached block, before and after it was read in. */
  lemma {:induction false} ReadIn(bufs: map<nat, Buf>, disk: seq<Block>, l: nat)
    requires l in bufs && l < |disk|
    ensures ContentOf(bufs, disk)[l] == if bufs[l].uptodate then bufs[l].data else disk[l]
    ensures !bufs[l].uptodate ==>
              forall b: Buf :: b.uptodate && b.data == disk[l] ==>
                ContentOf(bufs[l := b], disk) == ContentOf(bufs, disk)
  {
  }

  lemma {:induction false} KeysIn(bufs: map<nat, Buf>, lru: set<nat>, list: seq<nat>, disk: seq<Block>, lruCtr: nat,
          refBlocks: nat)
    requires Base(bufs, lru, list, disk, lruCtr, refBlocks)
    ensures (forall k :: k in bufs ==> k < |disk|) && forall k :: k in list ==> k in bufs
  {
  }

  /** All buffers other than l are as they were. */
  ghost predicate OthersKept(bufs: map<nat, Buf>, bufs': map<nat, Buf>, l: nat) {
    forall k :: k != l ==> (k in bufs <==> k in bufs') && (k in bufs ==> bufs'[k] == bufs[k])
  }

  /** Nothing is written to disk but what was in buffers that have gone, if they were dirty. */
  ghost predicate WrittenOnly(bufs: map<nat, Buf>, bufs': map<nat, Buf>, disk: seq<Block>, disk': seq<Block>) {
    |disk'| == |disk| && forall k {:trigger disk'[k]} :: 0 <= k < |disk| ==>
      disk'[k] == if k in bufs && k !in bufs' && bufs[k].dirty then bufs[k].data else disk[k]
  }

  lemma {:induction false} WrittenNone(bufs: map<nat, Buf>, disk: seq<Block>)
    ensures WrittenOnly(bufs, bufs, disk, disk)
  {
  }

  lemma {:induction false} WrittenMore(bufs: map<nat, Buf>, bufs': map<nat, Buf>, disk: seq<Block>, disk': seq<Block>,
          l: nat, disk2: seq<Block>)
    requires WrittenOnly(bufs, bufs', disk, disk') && l in bufs' && l in bufs && bufs'[l] == bufs[l]
    requires disk2 == if bufs'[l].dirty && l < |disk'| then disk'[l := bufs'[l].data] else disk'
    ensures WrittenOnly(bufs, bufs' - {l}, disk, disk2)
  {
  }

  /** Buffers in use, other than l, are as they were. */
  ghost predicate InUseKept(bufs: map<nat, Buf>, bufs': map<nat, Buf>, l: nat) {
    forall k :: k in bufs && k != l && bufs[k].refctr > 0 ==> k in bufs' && bufs'[k] == bufs[k]
  }

  /** The contents with the blocks from a up to b as they are on disk. */
  function Forgotten(content: seq<Block>, disk: seq<Block>, a: nat, b: nat): (c: seq<Block>)
    requires |content| == |disk|
    ensures |c| == |disk|
            && forall i {:trigger c[i]} :: 0 <= i < |c| ==> c[i] == if a <= i < b then disk[i] else content[i]
  {
    seq(|disk|, i requires 0 <= i < |disk| => if a <= i < b then disk[i] else content[i])
  }

  /** The block behind the last one of a run, as ext4_bcache_invalidate_lba computes it. */
  function Behind(from: nat, count: nat): nat {
    (from + count + (BLOCKS - 1)) % BLOCKS + 1
  }

  /** Invalidating a run forgets the run and nothing else if and only if its first block is cached and its
      last one has not wrapped, or nothing differs from the disk in the run; for no blocks from a cached
      block 0 on, in the whole cache. */
  lemma {:induction false} ForgottenExact(bufs: map<nat, Buf>, disk: seq<Block>, from: nat, count: nat)
    requires from < BLOCKS && count < BLOCKS && |disk| <= BLOCKS
    ensures var c := ContentOf(bufs, disk);
            Forgotten(c, disk, if from in bufs then from else |disk|, Behind(from, count)) ==
                Forgotten(c, disk, from, from + count)
            <==> (from in bufs && 0 < from + count <= BLOCKS)
                 || forall k :: k in bufs && k < |disk| && bufs[k].uptodate
                                && (from <= k < from + count || (from in bufs && from + count == 0)) ==>
                      bufs[k].data == disk[k]
  {
    var c, end := ContentOf(bufs, disk), Behind(from, count);
    BehindIs(from, count);
    hide Behind;
    var a := if from in bufs then from else |disk|;
    var x, y := Forgotten(c, disk, a, end), Forgotten(c, disk, from, from + count);
    if !(from in bufs && 0 < from + count <= BLOCKS) {
      if k :| k in bufs && k < |disk| && bufs[k].uptodate
              && (from <= k < from + count || (from in bufs && from + count == 0)) && bufs[k].data != disk[k] {
        assert x[k] != y[k];
      } else {
        assert x == y;
      }
    }
  }

  lemma {:induction false} BehindIs(from: nat, count: nat)
    requires from < BLOCKS && count < BLOCKS
    ensures Behind(from, count) ==
            if from + count == 0 then BLOCKS else if from + count <= BLOCKS then from + count else from + count - BLOCKS
  {
  }

  /** Blocks 0 and 1 are invalidated while only block 1 is cached, with new content: it stays. */
  lemma {:induction false} ForgottenExample()
    ensures var bufs := map[1 := Buf([7], true, true, false, false, 0, 1, true)]; var c := ContentOf(bufs, [[0], [0]]);
            && 0 !in bufs && Forgotten(c, [[0], [0]], |c|, Behind(0, 2)) == [[0], [7]]
            && Forgotten(c, [[0], [0]], 0, 2) == [[0], [0]]
  {
    BehindIs(0, 2);
  }

  /** No blocks are invalidated from block 0 on while it is cached: the new content of block 1 is gone. */
  lemma {:induction false} EmptyRunExample()
    ensures var bufs := map[0 := Buf([5], true, true, false, false, 0, 1, true),
                            1 := Buf([7], true, true, false, false, 0, 2, true)];
            var c := ContentOf(bufs, [[0], [0]]);
            && 0 in bufs && Forgotten(c, [[0], [0]], 0, Behind(0, 0)) == [[0], [0]]
            && Forgotten(c, [[0], [0]], 0, 0) == [[5], [7]]
  {
    BehindIs(0, 0);
  }

  lemma {:induction false} KeptThrough(bufs: map<nat, Buf>, lru: set<nat>, bufs1: map<nat, Buf>, bufs': map<nat, Buf>,
          l: nat)
    requires forall k :: k in lru ==> k in bufs && bufs[k].refctr == 0
    requires forall k :: k in bufs1 ==> k in bufs && bufs1[k] == bufs[k]
    requires forall k :: k in bufs && k !in bufs1 ==> k in lru
    requires Held(bufs1, bufs', l)
    ensures InUseKept(bufs, bufs', l) && bufs'[l].refctr == if l in bufs then bufs[l].refctr + 1 else 1
  {
  }

  /** Contents and state of a buffer set by who holds it, or by reading it. */
  lemma {:induction false} StateOk(bufs: map<nat, Buf>, lru: set<nat>, list: seq<nat>, disk: seq<Block>, lruCtr: nat,
          refBlocks: nat, writeBack: nat, l: nat, data: Block, uptodate: bool, dirty: bool)
    requires Base(bufs, lru, list, disk, lruCtr, refBlocks) && Settled(bufs, list, writeBack) && l in bufs
             && bufs[l].refctr > 0
    requires l < |disk| && uptodate && (dirty || data == disk[l]) && (bufs[l].dirty ==> dirty)
    ensures var b := bufs[l].(data := data, uptodate := uptodate, dirty := dirty);
            Base(bufs[l := b], lru, list, disk, lruCtr, refBlocks) && Settled(bufs[l := b], list, writeBack)
  {
    hide Base, Without;
    BufAt(bufs, lru, list, disk, lruCtr, refBlocks, l);
    Unlisted(bufs, lru, list, disk, lruCtr, refBlocks, l);
    assert lru - {l} == lru;
    BufPut(bufs, lru, list, disk, lruCtr, refBlocks, l, bufs[l].(data := data, uptodate := uptodate, dirty := dirty),
            lru, list, disk, lruCtr, refBlocks);
  }

  lemma {:induction false} ForgetOk(bufs: map<nat, Buf>, lru: set<nat>, list: seq<nat>, disk: seq<Block>, lruCtr: nat,
          refBlocks: nat, writeBack: nat, l: nat)
    requires Base(bufs, lru, list, disk, lruCtr, refBlocks) && Settled(bufs, list, writeBack) && l in bufs
    ensures var b := bufs[l].(uptodate := false, dirty := false, onList := false);
            var list' := if bufs[l].onList then Without(list, l) else list;
            && (bufs[l].onList ==> bufs[l].dirty)
            && Base(bufs[l := b], lru, list', disk, lruCtr, refBlocks) && Settled(bufs[l := b], list', writeBack)
            && bufs[l := b].Keys == bufs.Keys
  {
    hide Base, Without;
    BufAt(bufs, lru, list, disk, lruCtr, refBlocks, l);
    Unlisted(bufs, lru, list, disk, lruCtr, refBlocks, l);
    var b := bufs[l].(uptodate := false, dirty := false, onList := false);
    assert lru == if b.refctr == 0 then lru + {l} else lru - {l};
    BufPut(bufs, lru, list, disk, lruCtr, refBlocks, l, b, lru, Without(list, l), disk, lruCtr, refBlocks);
    assert bufs[l := b].Keys == bufs.Keys;
  }

  lemma {:induction false} Uncached(bufs: map<nat, Buf>, disk: seq<Block>, l: nat)
    ensures l < |disk| && l !in bufs ==> ContentOf(bufs, disk)[l] == disk[l]
  {
  }

  /** A clean buffer, or none, means that the disk has the contents. */
  lemma {:induction false} CleanOnDisk(bufs: map<nat, Buf>, lru: set<nat>, list: seq<nat>, disk: seq<Block>,
          lruCtr: nat, refBlocks: nat, l: nat)
    requires Base(bufs, lru, list, disk, lruCtr, refBlocks)
    ensures l < |disk| && (l in bufs ==> !bufs[l].dirty) ==> ContentOf(bufs, disk)[l] == disk[l]
  {
    if l in bufs {
      BufAt(bufs, lru, list, disk, lruCtr, refBlocks, l);
    }
  }

  lemma {:induction false} ListAt(bufs: map<nat, Buf>, lru: set<nat>, list: seq<nat>, disk: seq<Block>, lruCtr: nat,
          refBlocks: nat, l: nat)
    requires Base(bufs, lru, list, disk, lruCtr, refBlocks) && l in list
    ensures l in bufs && bufs[l].onList && bufs[l].dirty
  {
    assert BufOk(bufs[l], disk[l]);
  }

  lemma {:induction false} SettledAny(bufs: map<nat, Buf>, list: seq<nat>, bufs': map<nat, Buf>, list': seq<nat>,
          l: nat)
    requires Settled(bufs, list, 1) && l in bufs && bufs' == bufs[l := bufs[l].(dirty := false, onList := false)]
    ensures Settled(bufs', list', 1)
  {
  }

  lemma {:induction false} SettledEmpty(bufs: map<nat, Buf>, writeBack: nat)
    requires Settled(bufs, [], 1)
    ensures Settled(bufs, [], writeBack)
  {
  }

  lemma {:induction false} Loosely(bufs: map<nat, Buf>, list: seq<nat>, writeBack: nat)
    requires Settled(bufs, list, writeBack)
    ensures Settled(bufs, list, 1)
  {
  }

  lemma {:induction false} Deeper(bufs: map<nat, Buf>, list: seq<nat>, writeBack: nat)
    requires Settled(bufs, list, 1) && writeBack > 0
    ensures Settled(bufs, list, writeBack)
  {
  }

  lemma {:induction false} Emptied(bufs: map<nat, Buf>, lru: set<nat>, list: seq<nat>, disk: seq<Block>, lruCtr: nat,
          refBlocks: nat, writeBack: nat)
    requires Base(bufs, lru, list, disk, lruCtr, refBlocks) && forall k :: k in bufs ==> |disk| <= k
    ensures bufs == map[] && Settled(bufs, list, writeBack) && ContentOf(bufs, disk) == disk
  {
    forall k
      ensures k !in bufs
    {
      assert k in bufs ==> k < |disk|;
    }
    assert bufs == map[];
    assert forall l :: l !in list;
    EmptyOr(list);
  }

  lemma {:induction false} EmptyOr(list: seq<nat>)
    ensures list == [] || exists x :: x in list
  {
    if list != [] {
      assert list[0] in list;
    }
  }

  /** One more reference; the first one also leaves the dirty list and gets a new id. */
  function Taken(b: Buf, id: nat): Buf {
    b.(refctr := b.refctr + 1, lruId := id, onList := false)
  }

  /** A buffer whose contents count no longer. */
  function Blank(b: Buf): Buf {
    b.(uptodate := false, dirty := false, onList := b.onList && !b.dirty)
  }

  /** A dirty buffer that nobody uses stays off the disk for now: with write-back on, unless it is marked to
      be flushed at once, or temporary. */
  predicate Waits(b: Buf, writeBack: nat) {
    writeBack > 0 && !b.flush && !b.tmp
  }

  /** The caller now holds one more reference to block l, and no other buffer it may be using, nor
      any that is left, has changed. */
  ghost predicate Held(bufs: map<nat, Buf>, bufs': map<nat, Buf>, l: nat) {
    && l in bufs' && bufs'[l].refctr == (if l in bufs then bufs[l].refctr + 1 else 1)
    && (l in bufs ==>
        bufs'[l].data == bufs[l].data && bufs'[l].uptodate == bufs[l].uptodate && bufs'[l].dirty == bufs[l].dirty)
    && (forall k :: k != l ==> (k in bufs' <==> k in bufs) && (k in bufs' ==> bufs'[k] == bufs[k]))
  }

  lemma {:induction false} TakeOk(bufs: map<nat, Buf>, lru: set<nat>, list: seq<nat>, disk: seq<Block>, lruCtr: nat,
          refBlocks: nat, writeBack: nat, l: nat)
    requires Base(bufs, lru, list, disk, lruCtr, refBlocks) && Settled(bufs, list, writeBack) && l in bufs
    ensures var b := bufs[l]; var first := b.refctr == 0;
            var bufs' := bufs[l := Taken(b, if first then lruCtr + 1 else b.lruId)];
            var list' := if b.onList then Without(list, l) else list;
            && (b.onList ==> b.dirty && first)
            && Base(bufs', if first then lru - {l} else lru, list', disk, if first then lruCtr + 1 else lruCtr,
                   refBlocks)
            && Settled(bufs', list', writeBack) && ContentOf(bufs', disk) == ContentOf(bufs, disk)
  {
    hide Base, Without;
    BufAt(bufs, lru, list, disk, lruCtr, refBlocks, l);
    Unlisted(bufs, lru, list, disk, lruCtr, refBlocks, l);
    var b := bufs[l];
    if b.refctr > 0 {
      assert lru - {l} == lru;
    }
    BufPut(bufs, lru, list, disk, lruCtr, refBlocks, l, Taken(b, if b.refctr == 0 then lruCtr + 1 else b.lruId),
           lru - {l}, Without(list, l), disk, if b.refctr == 0 then lruCtr + 1 else lruCtr, refBlocks);
  }

  lemma {:induction false} AllocOk(bufs: map<nat, Buf>, lru: set<nat>, list: seq<nat>, disk: seq<Block>, lruCtr: nat,
          refBlocks: nat, writeBack: nat, l: nat, b: Buf)
    requires Base(bufs, lru, list, disk, lruCtr, refBlocks) && Settled(bufs, list, writeBack) && l !in bufs
             && l < |disk|
    requires b == Buf(b.data, false, false, false, false, 1, lruCtr + 1, false)
    ensures Base(bufs[l := b], lru, list, disk, lruCtr + 1, refBlocks + 1) && Settled(bufs[l := b], list, writeBack)
    ensures ContentOf(bufs[l := b], disk) == ContentOf(bufs, disk)
  {
    hide Without;
    Unlisted(bufs, lru, list, disk, lruCtr, refBlocks, l);
    assert lru - {l} == lru;
    hide Base;
    BufPut(bufs, lru, list, disk, lruCtr, refBlocks, l, b, lru, list, disk, lruCtr + 1, refBlocks + 1);
  }

  lemma {:induction false} SameOnDisk(bufs: map<nat, Buf>, lru: set<nat>, list: seq<nat>, disk: seq<Block>, lruCtr: nat,
          refBlocks: nat, l: nat)
    requires Base(bufs, lru, list, disk, lruCtr, refBlocks) && l < |disk|
    ensures l !in bufs || !bufs[l].dirty ==> ContentOf(bufs, disk)[l] == disk[l]
  {
    if l in bufs {
      BufAt(bufs, lru, list, disk, lruCtr, refBlocks, l);
    }
  }

  /** Only buffer l has changed, and it waits on the list if it has to. */
  lemma {:induction false} SettledAt(bufs: map<nat, Buf>, list: seq<nat>, bufs': map<nat, Buf>, list': seq<nat>,
          writeBack: nat, l: nat)
    requires Settled(bufs, list, writeBack) && (list' == list || writeBack > 0)
    requires forall k :: k in bufs' && k != l ==> k in bufs && bufs'[k] == bufs[k]
    requires l in bufs' && bufs'[l].refctr == 0 && bufs'[l].dirty ==> bufs'[l].onList
    ensures Settled(bufs', list', writeBack)
  {
  }

  lemma {:induction false} FlagOk(bufs: map<nat, Buf>, lru: set<nat>, list: seq<nat>, disk: seq<Block>, lruCtr: nat,
          refBlocks: nat, l: nat)
    requires Base(bufs, lru, list, disk, lruCtr, refBlocks) && l in bufs
    ensures Base(bufs[l := bufs[l].(flush := false)], lru, list, disk, lruCtr, refBlocks)
    ensures ContentOf(bufs[l := bufs[l].(flush := false)], disk) == ContentOf(bufs, disk)
  {
    hide Base, Without;
    BufAt(bufs, lru, list, disk, lruCtr, refBlocks, l);
    Unlisted(bufs, lru, list, disk, lruCtr, refBlocks, l);
    var b := bufs[l];
    assert lru == if b.refctr == 0 then lru + {l} else lru - {l};
    BufPut(bufs, lru, list, disk, lruCtr, refBlocks, l, b.(flush := false), lru, list, disk, lruCtr, refBlocks);
  }

  /** The first part of giving a reference back. */
  lemma {:induction false} FreeOk(bufs: map<nat, Buf>, lru: set<nat>, list: seq<nat>, disk: seq<Block>, lruCtr: nat,
          refBlocks: nat, writeBack: nat, l: nat)
    requires Base(bufs, lru, list, disk, lruCtr, refBlocks) && Settled(bufs, list, writeBack) && l in bufs
             && bufs[l].refctr > 0
    ensures var b := bufs[l].(refctr := bufs[l].refctr - 1);
            && !b.onList && (b.dirty ==> b.uptodate)
            && ContentOf(bufs[l := b], disk) == ContentOf(bufs, disk)
            && (b.refctr > 0 ==>
                Base(bufs[l := b], lru, list, disk, lruCtr, refBlocks) && Settled(bufs[l := b], list, writeBack))
            && (b.refctr == 0 ==> Base(bufs[l := b], lru + {l}, list, disk, lruCtr, refBlocks))
            && (b.refctr == 0 && b.dirty ==>
                  && Base(bufs[l := b.(onList := true)], lru + {l}, [l] + list, disk, lruCtr, refBlocks)
                  && ContentOf(bufs[l := b.(onList := true)], disk) == ContentOf(bufs, disk))
  {
    hide Base, Without;
    var b := bufs[l].(refctr := bufs[l].refctr - 1);
    BufAt(bufs, lru, list, disk, lruCtr, refBlocks, l);
    Unlisted(bufs, lru, list, disk, lruCtr, refBlocks, l);
    assert lru - {l} == lru;
    BufPut(bufs, lru, list, disk, lruCtr, refBlocks, l, b, if b.refctr == 0 then lru + {l} else lru, list, disk, lruCtr,
            refBlocks);
    if b.refctr == 0 && b.dirty {
      BufPut(bufs, lru, list, disk, lruCtr, refBlocks, l, b.(onList := true), lru + {l}, [l] + list, disk, lruCtr,
              refBlocks);
    }
  }

  lemma {:induction false} BufAt(bufs: map<nat, Buf>, lru: set<nat>, list: seq<nat>, disk: seq<Block>, lruCtr: nat,
          refBlocks: nat, l: nat)
    requires Base(bufs, lru, list, disk, lruCtr, refBlocks) && l in bufs
    ensures l < |disk| && BufOk(bufs[l], disk[l]) && (l in lru <==> bufs[l].refctr == 0)
            && (l in list <==> bufs[l].onList) && refBlocks > 0
    ensures bufs[l].lruId <= lruCtr
  {
  }

  lemma {:induction false} InLru(bufs: map<nat, Buf>, lru: set<nat>, list: seq<nat>, disk: seq<Block>, lruCtr: nat,
          refBlocks: nat)
    requires Base(bufs, lru, list, disk, lruCtr, refBlocks)
    ensures forall l :: l in lru ==> l in bufs && bufs[l].refctr == 0
  {
  }

  /** Buffer l is changed to b, or added: the trees and the list have to follow. */
  lemma {:induction false} BufPut(bufs: map<nat, Buf>, lru: set<nat>, list: seq<nat>, disk: seq<Block>, lruCtr: nat,
          refBlocks: nat, l: nat, b: Buf, lru': set<nat>, list': seq<nat>, disk': seq<Block>, lruCtr': nat,
          refBlocks': nat)
    requires Base(bufs, lru, list, disk, lruCtr, refBlocks)
    requires l < |disk'| == |disk| && (forall k :: 0 <= k < |disk| && k != l ==> disk'[k] == disk[k])
             && BufOk(b, disk'[l])
    requires lruCtr <= lruCtr' && b.lruId <= lruCtr' && ((l in bufs && b.lruId == bufs[l].lruId) || b.lruId > lruCtr)
    requires lru' == if b.refctr == 0 then lru + {l} else lru - {l}
    requires list' == if b.onList then (if l in list then list else [l] + list) else Without(list, l)
    requires refBlocks' == if l in bufs then refBlocks else refBlocks + 1
    ensures Base(bufs[l := b], lru', list', disk', lruCtr', refBlocks')
  {
    hide Distinct, Without, BufOk, ListOk;
    BufsPut(bufs, disk, disk', lruCtr, lruCtr', l, b);
    IdsPut(bufs, disk, lruCtr, l, b);
    LruPut(bufs, lru, l, b);
    ListPut(bufs, list, l, b, list');
    assert bufs[l := b].Keys == bufs.Keys + {l};
    if l in bufs {
      assert bufs[l := b].Keys == bufs.Keys;
    }
  }

  lemma {:induction false} BufsPut(bufs: map<nat, Buf>, disk: seq<Block>, disk': seq<Block>, lruCtr: nat, lruCtr': nat,
          l: nat, b: Buf)
    requires BufsOk(bufs, disk, lruCtr) && lruCtr <= lruCtr' && b.lruId <= lruCtr'
    requires l < |disk'| == |disk| && (forall k :: 0 <= k < |disk| && k != l ==> disk'[k] == disk[k])
             && BufOk(b, disk'[l])
    ensures BufsOk(bufs[l := b], disk', lruCtr')
  {
    hide BufOk;
  }

  lemma {:induction false} IdsPut(bufs: map<nat, Buf>, disk: seq<Block>, lruCtr: nat, l: nat, b: Buf)
    requires IdsOk(bufs) && BufsOk(bufs, disk, lruCtr) && ((l in bufs && b.lruId == bufs[l].lruId) || b.lruId > lruCtr)
    ensures IdsOk(bufs[l := b])
  {
    hide BufOk;
  }

  lemma {:induction false} LruPut(bufs: map<nat, Buf>, lru: set<nat>, l: nat, b: Buf)
    requires LruOk(bufs, lru)
    ensures LruOk(bufs[l := b], if b.refctr == 0 then lru + {l} else lru - {l})
  {
  }

  lemma {:induction false} ListPut(bufs: map<nat, Buf>, list: seq<nat>, l: nat, b: Buf, list': seq<nat>)
    requires ListOk(bufs, list)
    requires list' == if b.onList then (if l in list then list else [l] + list) else Without(list, l)
    ensures ListOk(bufs[l := b], list')
  {
    hide Distinct;
    if !b.onList {
      WithoutDistinct(list, l);
    } else if l !in list {
      PrependDistinct(list, l);
    }
  }

  lemma {:induction false} PrependDistinct(s: seq<nat>, x: nat)
    requires Distinct(s) && x !in s
    ensures Distinct([x] + s)
  {
  }

  lemma {:induction false} WithoutNone(s: seq<nat>, x: nat)
    requires x !in s
    ensures Without(s, x) == s
  {
    if s != [] {
      WithoutNone(s[1..], x);
    }
  }

  /** The list without l, as the code keeps it: it looks only if the buffer is marked. */
  lemma {:induction false} Unlisted(bufs: map<nat, Buf>, lru: set<nat>, list: seq<nat>, disk: seq<Block>, lruCtr: nat,
          refBlocks: nat, l: nat)
    requires Base(bufs, lru, list, disk, lruCtr, refBlocks)
    ensures Without(list, l) == if l in bufs && bufs[l].onList then Without(list, l) else list
  {
    if !(l in bufs && bufs[l].onList) {
      WithoutNone(list, l);
    }
  }

  /** A buffer written to disk. */
  lemma {:induction false} FlushOk(bufs: map<nat, Buf>, lru: set<nat>, list: seq<nat>, disk: seq<Block>, lruCtr: nat,
          refBlocks: nat, l: nat)
    requires Base(bufs, lru, list, disk, lruCtr, refBlocks) && l in bufs && l < |disk|
    ensures var b := bufs[l];
            b.dirty ==>
              && Base(bufs[l := b.(dirty := false, onList := false)], lru, if b.onList then Without(list, l) else list,
                     disk[l := b.data], lruCtr, refBlocks)
              && ContentOf(bufs[l := b.(dirty := false, onList := false)], disk[l := b.data]) == ContentOf(bufs, disk)
  {
    hide Base, Without;
    BufAt(bufs, lru, list, disk, lruCtr, refBlocks, l);
    Unlisted(bufs, lru, list, disk, lruCtr, refBlocks, l);
    var b := bufs[l];
    if b.dirty {
      assert lru == if b.refctr == 0 then lru + {l} else lru - {l};
      BufPut(bufs, lru, list, disk, lruCtr, refBlocks, l, b.(dirty := false, onList := false),
             lru, Without(list, l), disk[l := b.data], lruCtr, refBlocks);
    }
  }

  lemma {:induction false} DropOk(bufs: map<nat, Buf>, lru: set<nat>, list: seq<nat>, disk: seq<Block>, lruCtr: nat,
          refBlocks: nat, l: nat)
    requires Base(bufs, lru, list, disk, lruCtr, refBlocks) && l in bufs
    ensures refBlocks > 0
            && Base(bufs - {l}, lru - {l}, if bufs[l].onList then Without(list, l) else list, disk, lruCtr,
                   refBlocks - 1)
    ensures !bufs[l].dirty ==> ContentOf(bufs - {l}, disk) == ContentOf(bufs, disk)
  {
    hide BufsOk, IdsOk, LruOk, ListOk, Without, ContentOf;
    DropCount(bufs, l);
    Unlisted(bufs, lru, list, disk, lruCtr, refBlocks, l);
    DropContent(bufs, disk, lruCtr, l);
    DropList(bufs, list, l);
    DropTrees(bufs, lru, disk, lruCtr, l);
  }

  lemma {:induction false} DropContent(bufs: map<nat, Buf>, disk: seq<Block>, lruCtr: nat, l: nat)
    requires BufsOk(bufs, disk, lruCtr) && l in bufs
    ensures !bufs[l].dirty ==> ContentOf(bufs - {l}, disk) == ContentOf(bufs, disk)
  {
    if !bufs[l].dirty {
      assert BufOk(bufs[l], disk[l]);
      forall i | 0 <= i < |disk|
        ensures ContentOf(bufs - {l}, disk)[i] == ContentOf(bufs, disk)[i]
      {
      }
    }
  }

  lemma {:induction false} DropList(bufs: map<nat, Buf>, list: seq<nat>, l: nat)
    requires ListOk(bufs, list)
    ensures ListOk(bufs - {l}, Without(list, l))
  {
    hide Distinct;
    WithoutDistinct(list, l);
  }

  lemma {:induction false} DropTrees(bufs: map<nat, Buf>, lru: set<nat>, disk: seq<Block>, lruCtr: nat, l: nat)
    requires BufsOk(bufs, disk, lruCtr) && IdsOk(bufs) && LruOk(bufs, lru)
    ensures BufsOk(bufs - {l}, disk, lruCtr) && IdsOk(bufs - {l}) && LruOk(bufs - {l}, lru - {l})
  {
    hide BufOk;
  }

  lemma {:induction false} DropCount(bufs: map<nat, Buf>, l: nat)
    requires l in bufs
    ensures |bufs - {l}| == |bufs| - 1
  {
    assert (bufs - {l}).Keys == bufs.Keys - {l};
  }

  /** The buffers gone were not in use, and older than every unused one that stays. */
  ghost predicate Evicted(bufs: map<nat, Buf>, lru: set<nat>, bufs': map<nat, Buf>, lru': set<nat>) {
    && (forall k :: k in bufs' ==> k in bufs && bufs'[k] == bufs[k])
    && (forall k :: k in bufs && k !in bufs' ==> k in lru)
    && (forall l :: l in lru' ==> l in bufs' && l in lru)
    && (forall k, l :: k in bufs && k !in bufs' && l in lru' ==> bufs[k].lruId < bufs'[l].lruId)
  }

  lemma {:induction false} NoneEvicted(bufs: map<nat, Buf>, lru: set<nat>)
    requires forall l :: l in lru ==> l in bufs
    ensures Evicted(bufs, lru, bufs, lru)
  {
  }

  lemma {:induction false} EvictedAt(bufs: map<nat, Buf>, lru: set<nat>, bufs': map<nat, Buf>, lru': set<nat>)
    requires Evicted(bufs, lru, bufs', lru')
    ensures forall k :: k in bufs' ==> k in bufs && bufs'[k] == bufs[k]
    ensures forall k :: k in bufs && k !in bufs' ==> k in lru
    ensures forall k, l :: k in bufs && k !in bufs' && l in lru' ==> l in bufs' && bufs[k].lruId < bufs'[l].lruId
  {
  }

  lemma {:induction false} EvictMore(bufs0: map<nat, Buf>, lru0: set<nat>, bufs: map<nat, Buf>, lru: set<nat>,
          list: seq<nat>, disk: seq<Block>, lruCtr: nat, refBlocks: nat, l: nat, writeBack: nat)
    requires Base(bufs, lru, list, disk, lruCtr, refBlocks) && Settled(bufs, list, writeBack)
    requires Evicted(bufs0, lru0, bufs, lru) && l in lru && forall k :: k in lru ==> bufs[l].lruId <= bufs[k].lruId
    ensures Evicted(bufs0, lru0, bufs - {l}, lru - {l})
    ensures Settled(bufs - {l}, if bufs[l].onList then Without(list, l) else list, writeBack)
    ensures Settled(bufs[l := bufs[l].(dirty := false, onList := false)] - {l},
                if bufs[l].onList then Without(list, l) else list, writeBack)
    ensures bufs[l := bufs[l].(dirty := false, onList := false)] - {l} == bufs - {l}
  {
  }
}
