/** Reading a file in runs of blocks that follow each other on disk: ext4_fread of lwext4/src/ext4.c,
    for files without holes. */
module FileRead {
  import opened Common

  datatype Err = EOK | EPERM

  /** Blocks one after the other. */
  function Cat(s: seq<Block>): seq<nat> {
    if s == [] then [] else Cat(s[..|s| - 1]) + s[|s| - 1]
  }

  predicate Sized(s: seq<Block>, size: nat) {
    forall i {:trigger s[i]} :: 0 <= i < |s| ==> |s[i]| == size
  }

  lemma {:induction false} CatLen(s: seq<Block>, size: nat)
    requires Sized(s, size)
    ensures |Cat(s)| == size * |s|
    decreases |s|
  {
    if s != [] {
      CatLen(s[..|s| - 1], size);
      assert size * |s| == size * (|s| - 1) + size;
    }
  }

  lemma {:induction false} CatJoin(a: seq<Block>, b: seq<Block>)
    ensures Cat(a + b) == Cat(a) + Cat(b)
    decreases |b|
  {
    if b == [] {
      assert a + b == a;
    } else {
      assert (a + b)[..|a + b| - 1] == a + b[..|b| - 1];
      CatJoin(a, b[..|b| - 1]);
    }
  }

  /** Whole blocks are a slice of the bytes. */
  lemma {:induction false} CatRange(s: seq<Block>, size: nat, i: nat, j: nat)
    requires Sized(s, size) && i <= j <= |s|
    ensures size * i <= size * j <= |Cat(s)| && Cat(s)[size * i..size * j] == Cat(s[i..j])
  {
    var a, b, c := s[..i], s[i..j], s[j..];
    SizedParts(s, size, i, j);
    hide Cat, Sized;
    assert s == (a + b) + c;
    CatJoin(a + b, c);
    CatJoin(a, b);
    CatLen(a, size);
    CatLen(b, size);
    CatLen(s, size);
    Share(size, i, j - i);
    Share(size, j, |s| - j);
    Middle(Cat(a), Cat(b), Cat(c));
  }

  lemma {:induction false} Share(m: nat, a: nat, b: nat)
    ensures m * (a + b) == m * a + m * b && m * b >= 0
  {
  }

  lemma {:induction false} SizedParts(s: seq<Block>, size: nat, i: nat, j: nat)
    requires Sized(s, size) && i <= j <= |s|
    ensures Sized(s[..i], size) && Sized(s[i..j], size)
  {
  }

  lemma {:induction false} Middle(a: seq<nat>, b: seq<nat>, c: seq<nat>)
    ensures ((a + b) + c)[|a|..|a| + |b|] == b
  {
  }

  /** Part of one block is a slice of the bytes. */
  lemma {:induction false} CatPart(s: seq<Block>, size: nat, i: nat, u: nat, len: nat)
    requires Sized(s, size) && i < |s| && u + len <= size
    ensures size * i + u + len <= |Cat(s)| && Cat(s)[size * i + u..size * i + u + len] == s[i][u..u + len]
  {
    CatRange(s, size, i, i + 1);
    var one := [s[i]];
    assert s[i..i + 1] == one && one[..0] == [];
    assert Cat(one) == Cat([]) + s[i] == s[i];
    assert size * (i + 1) == size * i + size;
    SubSlice(Cat(s), size * i, size * (i + 1), u, len);
  }

  lemma {:induction false} SubSlice(c: seq<nat>, a: nat, b: nat, u: nat, len: nat)
    requires a <= b <= |c| && a + u + len <= b
    ensures c[a..b][u..u + len] == c[a + u..a + u + len]
  {
    var x, y := c[a..b][u..u + len], c[a + u..a + u + len];
    forall k {:trigger x[k]} | 0 <= k < len
      ensures x[k] == y[k]
    {
    }
  }

  /** The blocks of a file in order. */
  function Mapped(dev: seq<Block>, blocks: seq<nat>): (s: seq<Block>)
    requires forall i :: 0 <= i < |blocks| ==> blocks[i] < |dev|
    ensures |s| == |blocks| && forall i {:trigger s[i]} :: 0 <= i < |s| ==> s[i] == dev[blocks[i]]
  {
    seq(|blocks|, i requires 0 <= i < |blocks| => dev[blocks[i]])
  }

  class File {
    const blockSize: nat
    const writeOnly: bool
    /** The device, in blocks of the file system. */
    const dev: seq<Block>
    /** The disk block of each block of the file. */
    const blocks: seq<nat>
    const fsize: nat
    var fpos: nat

    function Bytes(n: nat): nat {
      blockSize * n
    }

    /** Blocks have the right size, and the file has all its blocks: it is not sparse. */
    ghost predicate FileOk() {
      && blockSize > 0 && Sized(dev, blockSize) && fsize <= Bytes(|blocks|)
      && forall i {:trigger blocks[i]} :: 0 <= i < |blocks| ==> 0 < blocks[i] < |dev|
    }

    ghost predicate Valid()
      reads this
    {
      FileOk() && fpos <= fsize
    }

    /** The bytes of the file: what mapping each block by itself gives. */
    ghost function Content(): (c: seq<nat>)
      requires FileOk()
      ensures |c| == fsize
    {
      CatLen(Mapped(dev, blocks), blockSize);
      Cat(Mapped(dev, blocks))[..fsize]
    }

    /** The bytes from a position within one block. */
    lemma {:induction false} InBlock(i: nat, u: nat, len: nat)
      requires FileOk() && u + len <= blockSize && Bytes(i) + u + len <= fsize && u + len > 0
      ensures i < |blocks| && blocks[i] < |dev| && |dev[blocks[i]]| == blockSize
      ensures Content()[Bytes(i) + u..Bytes(i) + u + len] == dev[blocks[i]][u..u + len]
    {
      var s := Mapped(dev, blocks);
      Up(blockSize, |blocks| - 1, i);
      Spread(blockSize, |blocks| - 1, 0);
      CatLen(s, blockSize);
      CatPart(s, blockSize, i, u, len);
      Shorter(Cat(s), fsize, Bytes(i) + u, Bytes(i) + u + len);
    }

    /** A run of blocks that follow each other on disk. */
    ghost predicate Run(first: nat, start: nat, count: nat) {
      && first + count <= |blocks| && (count == 0 <==> start == 0)
      && forall k {:trigger blocks[k]} :: first <= k < first + count ==> blocks[k] == start + (k - first)
    }

    /** Reading such a run reads the blocks of the file. */
    lemma {:induction false} RunRead(first: nat, start: nat, count: nat)
      requires FileOk() && Run(first, start, count) && count > 0 && Bytes(first + count) <= fsize
      ensures start + count <= |dev| && |Cat(dev[start..start + count])| == Bytes(count) >= blockSize
      ensures Bytes(first + count) == Bytes(first) + Bytes(count)
      ensures Content()[Bytes(first)..Bytes(first + count)] == Cat(dev[start..start + count])
    {
      var s := Mapped(dev, blocks);
      assert blocks[first + count - 1] < |dev|;
      assert s[first..first + count] == dev[start..start + count];
      CatRange(s, blockSize, first, first + count);
      CatLen(dev[start..start + count], blockSize);
      CatLen(s, blockSize);
      Spread(blockSize, first, count - 1);
      Spread(blockSize, 0, count - 1);
      Shorter(Cat(s), fsize, Bytes(first), Bytes(first + count));
    }

    lemma {:induction false} RunMore(first: nat, start: nat, start': nat, count: nat)
      requires Run(first, start, count) && first + count < |blocks| && blocks[first + count] != 0
      requires start' == if start == 0 then blocks[first + count] else start
      ensures start' != 0 && (start' + count != blocks[first + count] ==> count > 0 && start' == start)
      ensures start' + count == blocks[first + count] ==> Run(first, start', count + 1)
    {
    }

    lemma {:induction false} RunOne(first: nat)
      requires first < |blocks| && blocks[first] != 0
      ensures Run(first, blocks[first], 1)
    {
    }

    lemma {:induction false} RunNone(first: nat)
      requires first <= |blocks|
      ensures Run(first, 0, 0)
    {
    }

    lemma {:induction false} QuotRem(x: nat)
      requires blockSize > 0
      ensures x == Bytes(Quot(x, blockSize)) + Rem(x, blockSize) && Rem(x, blockSize) < blockSize
    {
      DivMod(x, blockSize);
    }

    /** Where whole blocks end. */
    lemma {:induction false} FirstLast(first: nat, size: nat, last: nat, rem: nat)
      requires rem < blockSize
      ensures Bytes(first) + size == Bytes(last) + rem ==>
              (size >= blockSize ==> first < last) && (size < blockSize ==> first == last)
    {
      Up(blockSize, last, first);
      Up(blockSize, first, last);
    }

    lemma {:induction false} WholeBlocks(a: nat, b: nat)
      ensures a <= b ==> Bytes(a) <= Bytes(b)
      ensures Bytes(a + 1) == Bytes(a) + blockSize
    {
      Up(blockSize, a, b);
      Spread(blockSize, a, 0);
    }

    /** Whole blocks before the end are blocks of the file. */
    lemma {:induction false} LastIn(last: nat)
      requires FileOk() && Bytes(last) <= fsize
      ensures last <= |blocks| && forall k {:trigger blocks[k]} :: 0 <= k < |blocks| ==> blocks[k] != 0
    {
      Up(blockSize, |blocks|, last);
    }

    /** The inner loop: maps blocks as long as each follows the one before on disk. The first that does
        not begins the next run. */
    method Gather(ghost first: nat, idx: nat, last: nat, fblock0: nat, start0: nat, count0: nat)
      returns (fblock: nat, iblockIdx: nat, start: nat, count: nat)
      requires FileOk() && first < last <= |blocks| && idx <= last && Run(first, start0, count0)
               && first + count0 == idx
      requires forall k {:trigger blocks[k]} :: 0 <= k < |blocks| ==> blocks[k] != 0
      ensures Run(first, start, count) && count > 0
      ensures first + count == iblockIdx == last
              || (first + count + 1 == iblockIdx <= last && fblock == blocks[first + count] != start + count)
    {
      hide Run, FileOk;
      fblock, iblockIdx, start, count := fblock0, idx, start0, count0;
      while iblockIdx < last
        invariant first + count == iblockIdx <= last && Run(first, start, count)
        decreases last - iblockIdx
      {
        fblock := blocks[iblockIdx];
        iblockIdx := iblockIdx + 1;
        ghost var was := start;
        if start == 0 {
          start := fblock;
        }
        RunMore(first, was, start, count);
        if start + count != fblock {
          break;
        }
        count := count + 1;
      }
    }

    /** The part before the next whole block. */
    method ReadHead(size0: nat, idx: nat, unalg: nat) returns (data: seq<nat>, size: nat, iblockIdx: nat)
      requires FileOk() && fpos + size0 <= fsize && fpos == Bytes(idx) + unalg && 0 < unalg < blockSize
      modifies this`fpos
      ensures fpos == old(fpos) + |data| <= fsize && size == size0 - |data| && data == Content()[old(fpos)..fpos]
      ensures iblockIdx == idx + 1 && (size > 0 ==> fpos == Bytes(iblockIdx))
    {
      hide Content, FileOk, Bytes;
      var len: nat := size0;
      if size0 > blockSize - unalg {
        len := blockSize - unalg;
      }
      InBlock(idx, unalg, len);
      var fblock := blocks[idx];
      data := dev[fblock][unalg..unalg + len];
      size := size0 - len;
      fpos := fpos + len;
      WholeBlocks(idx, idx);
      iblockIdx := idx + 1;
    }

    /** The loop over runs of whole blocks. */
    method ReadRuns(size0: nat, idx: nat, last: nat, ghost rem: nat) returns (data: seq<nat>, size: nat, iblockIdx: nat)
      requires FileOk() && fpos + size0 <= fsize && fpos + size0 == Bytes(last) + rem && rem < blockSize
               && (size0 > 0 ==> fpos == Bytes(idx))
      modifies this`fpos
      ensures fpos == old(fpos) + |data| <= fsize && size == size0 - |data| && data == Content()[old(fpos)..fpos]
      ensures size < blockSize && (size > 0 ==> fpos == Bytes(iblockIdx))
    {
      hide Cat, Sized, Mapped, Run, Content, FileOk, Bytes;
      ghost var c, first: nat, end: nat, from: nat := Content(), idx, fpos + size0, fpos;
      FirstLast(first, size0, last, rem);
      LastIn(last);
      data, size, iblockIdx := [], size0, idx;
      var fblock: nat, fblockStart: nat, fblockCount: nat := 0, 0, 0;
      if size >= blockSize {
        RunNone(first);
      }
      while size >= blockSize
        invariant fpos + size == end && fpos == from + |data| && data == c[from..fpos]
        invariant size > 0 ==> fpos == Bytes(first)
        invariant 0 < size < blockSize ==> iblockIdx == first
        invariant size >= blockSize ==>
                  first < last && iblockIdx <= last && Run(first, fblockStart, fblockCount)
                  && first + fblockCount == iblockIdx
        decreases size
      {
        fblock, iblockIdx, fblockStart, fblockCount := Gather(first, iblockIdx, last, fblock, fblockStart, fblockCount);
        WholeBlocks(first + fblockCount, last);
        RunRead(first, fblockStart, fblockCount);
        Onward(c, from, fpos, fpos + Bytes(fblockCount));
        data := data + Cat(dev[fblockStart..fblockStart + fblockCount]);
        size := size - Bytes(fblockCount);
        fpos := fpos + Bytes(fblockCount);
        first := first + fblockCount;
        fblockStart := fblock;
        fblockCount := 1;
        FirstLast(first, size, last, rem);
        if size >= blockSize {
          RunOne(first);
        }
      }
    }

    /** Reads into a buffer: ext4_fread. The caller's count of bytes is left alone where nothing is to
        be read or nothing may be. */
    method Fread(size0: nat, rcnt0: nat) returns (err: Err, buf: seq<nat>, rcnt: nat)
      requires Valid()
      modifies this`fpos
      ensures Valid() && err == (if writeOnly then EPERM else EOK)
      ensures err == EPERM || size0 == 0 ==> buf == [] && fpos == old(fpos) && rcnt == rcnt0
      ensures err == EOK && size0 > 0 ==>
                && rcnt == (if size0 < fsize - old(fpos) then size0 else fsize - old(fpos))
                && fpos == old(fpos) + rcnt && buf == Content()[old(fpos)..fpos]
    {
      buf, rcnt := [], rcnt0;
      if writeOnly {
        return EPERM, [], rcnt;
      }
      if size0 == 0 {
        return EOK, [], rcnt;
      }
      rcnt := 0;
      assert blockSize > 0;
      hide Content, FileOk, Bytes, Quot, Rem;
      var size: nat := if size0 > fsize - fpos then fsize - fpos else size0;
      var iblockIdx: nat, iblockLast: nat, unalg: nat :=
        Quot(fpos, blockSize), Quot(fpos + size, blockSize), Rem(fpos, blockSize);
      ghost var end, c, from := fpos + size, Content(), fpos;
      QuotRem(fpos);
      QuotRem(end);
      if unalg != 0 {
        buf, size, iblockIdx := ReadHead(size, iblockIdx, unalg);
        rcnt := |buf|;
      }
      var data;
      ghost var at := fpos;
      data, size, iblockIdx := ReadRuns(size, iblockIdx, iblockLast, Rem(end, blockSize));
      Onward(c, from, at, fpos);
      buf := buf + data;
      rcnt := rcnt + |data|;
      if size > 0 {
        InBlock(iblockIdx, 0, size);
        var fblock := blocks[iblockIdx];
        Onward(c, from, fpos, fpos + size);
        buf := buf + dev[fblock][0..size];
        fpos := fpos + size;
        rcnt := rcnt + size;
      }
      return EOK, buf, rcnt;
    }
  }

  function Quot(x: nat, m: nat): nat
    requires m > 0
  {
    x / m
  }

  function Rem(x: nat, m: nat): nat
    requires m > 0
  {
    x % m
  }

  lemma {:induction false} Onward(c: seq<nat>, a: nat, b: nat, d: nat)
    requires a <= b <= d <= |c|
    ensures c[a..b] + c[b..d] == c[a..d]
  {
  }

  lemma {:induction false} Shorter(c: seq<nat>, n: nat, a: nat, b: nat)
    requires a <= b <= n <= |c|
    ensures c[..n][a..b] == c[a..b]
  {
  }
}
