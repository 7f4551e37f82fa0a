/** Allocation bitmaps: lwext4/src/ext4_bitmap.c. A bitmap is a buffer of bits; a set bit is in use. */
module Bitmap {
  import opened Common

  /** Clear bits among the first n. */
  ghost function Zeros(b: seq<bool>, n: nat): (z: nat)
    requires n <= |b|
    ensures z <= n
  {
    if n == 0 then 0 else Zeros(b, n - 1) + if b[n - 1] then 0 else 1
  }

  predicate AllSet(b: seq<bool>, i: nat, j: nat)
    requires j <= |b|
  {
    forall k :: i <= k < j ==> b[k]
  }

  lemma {:induction false} ZerosNone(b: seq<bool>, n: nat)
    requires n <= |b|
    ensures Zeros(b, n) == 0 <==> AllSet(b, 0, n)
  {
    if n > 0 {
      ZerosNone(b, n - 1);
    }
  }

  lemma {:induction false} ZerosAll(b: seq<bool>, n: nat)
    requires n <= |b| && forall k :: 0 <= k < n ==> !b[k]
    ensures Zeros(b, n) == n
  {
    if n > 0 {
      ZerosAll(b, n - 1);
    }
  }

  lemma {:induction false} ZerosSame(b: seq<bool>, b': seq<bool>, n: nat)
    requires n <= |b| && n <= |b'| && forall k :: 0 <= k < n ==> b[k] == b'[k]
    ensures Zeros(b, n) == Zeros(b', n)
  {
    if n > 0 {
      ZerosSame(b, b', n - 1);
    }
  }

  /** One bit changed. */
  lemma {:induction false} ZerosPut(b: seq<bool>, n: nat, i: nat, v: bool)
    requires i < n <= |b|
    ensures Zeros(b[i := v], n) == Zeros(b, n) + (if b[i] then 1 else 0) - (if v then 1 else 0)
  {
    if i == n - 1 {
      ZerosSame(b, b[i := v], n - 1);
    } else {
      ZerosPut(b, n - 1, i, v);
    }
  }

  function Cleared(b: seq<bool>, from: nat, count: nat): (r: seq<bool>)
    requires from + count <= |b|
    ensures |r| == |b|
            && forall k {:trigger r[k]} :: 0 <= k < |b| ==> r[k] == if from <= k < from + count then false else b[k]
  {
    b[..from] + seq(count, _ => false) + b[from + count..]
  }

  /** A run of set bits cleared. */
  lemma {:induction false} ZerosCleared(b: seq<bool>, n: nat, from: nat, count: nat)
    requires from + count <= n <= |b| && AllSet(b, from, from + count)
    ensures Zeros(Cleared(b, from, count), n) == Zeros(b, n) + count
    decreases count
  {
    if count == 0 {
      ZerosSame(b, Cleared(b, from, 0), n);
    } else {
      ZerosCleared(b, n, from, count - 1);
      var c := Cleared(b, from, count - 1);
      ZerosPut(c, n, from + count - 1, false);
      ZerosSame(c[from + count - 1 := false], Cleared(b, from, count), n);
    }
  }

  /** The first clear bit from i up to j, or j. */
  function FirstClear(b: seq<bool>, i: nat, j: nat): (f: nat)
    requires i <= j <= |b|
    ensures i <= f <= j && (f < j ==> !b[f]) && forall k :: i <= k < f ==> b[k]
    decreases j - i
  {
    if i == j || !b[i] then i else FirstClear(b, i + 1, j)
  }

  lemma {:induction false} FirstClearIs(b: seq<bool>, i: nat, j: nat, f: nat)
    requires i <= f <= j <= |b| && (f < j ==> !b[f]) && AllSet(b, i, f)
    ensures FirstClear(b, i, j) == f
    decreases f - i
  {
    if i < f {
      FirstClearIs(b, i + 1, j, f);
    }
  }

  /** The next whole byte. */
  function ByteUp(i: nat): (u: nat)
    ensures i <= u < i + 8 && u % 8 == 0
  {
    (i + 7) / 8 * 8
  }

  /** What the search answers: the first clear bit, but the start of the search when that bit lies
      before the next whole byte. */
  function Answer(b: seq<bool>, sbit: nat, ebit: nat): Option<nat>
    requires sbit <= ebit <= |b|
  {
    var f := FirstClear(b, sbit, ebit);
    if f == ebit then None else if f < ByteUp(sbit) then Some(sbit) else Some(f)
  }

  /** The answer is a clear bit if and only if the first clear bit is the start itself or lies
      behind the first partial byte. */
  lemma {:induction false} AnswerClear(b: seq<bool>, sbit: nat, ebit: nat)
    requires sbit <= ebit <= |b|
    ensures var f := FirstClear(b, sbit, ebit); var a := Answer(b, sbit, ebit);
            && (a.None? <==> AllSet(b, sbit, ebit))
            && (a.Some? ==> sbit <= a.value < ebit && (!b[a.value] <==> f == sbit || f >= ByteUp(sbit)))
  {
    var f := FirstClear(b, sbit, ebit);
    if f < ebit {
      assert !b[f];
    }
  }

  lemma {:induction false} WrongAnswer()
    ensures var b := [true, true, false, true]; Answer(b, 1, 4) == Some(1) && b[1]
  {
    var b := [true, true, false, true];
    FirstClearIs(b, 1, 4, 2);
  }

  /** Clears a run of bits: ext4_bmap_bits_free. */
  method BitsFree(bmap: array<bool>, sbit0: nat, bcnt0: nat)
    requires sbit0 + bcnt0 <= bmap.Length
    modifies bmap
    ensures bmap[..] == Cleared(old(bmap[..]), sbit0, bcnt0)
  {
    var sbit: nat, bcnt: nat, i: nat := sbit0, bcnt0, sbit0;
    while i % 8 != 0
      invariant sbit0 <= i <= ByteUp(sbit0) && i + bcnt == sbit0 + bcnt0
      invariant forall k :: 0 <= k < bmap.Length ==> bmap[k] == if sbit0 <= k < i then false else old(bmap[k])
      decreases ByteUp(sbit0) - i
    {
      if bcnt == 0 {
        return;
      }
      bmap[i] := false;
      bcnt := bcnt - 1;
      i := i + 1;
    }
    sbit := i;
    sbit, bcnt := FreeWords(bmap, sbit, bcnt, 32);
    sbit, bcnt := FreeWords(bmap, sbit, bcnt, 16);
    sbit, bcnt := FreeWords(bmap, sbit, bcnt, 8);
    i := 0;
    while i < bcnt
      invariant 0 <= i <= bcnt && sbit + bcnt == sbit0 + bcnt0 && sbit0 <= sbit
      invariant forall k :: 0 <= k < bmap.Length ==> bmap[k] == if sbit0 <= k < sbit + i then false else old(bmap[k])
    {
      bmap[sbit + i] := false;
      i := i + 1;
    }
  }

  /** The loops that clear a whole word at a time. */
  method FreeWords(bmap: array<bool>, sbit0: nat, bcnt0: nat, width: nat) returns (sbit: nat, bcnt: nat)
    requires sbit0 + bcnt0 <= bmap.Length && width > 0
    modifies bmap
    ensures sbit0 <= sbit && sbit + bcnt == sbit0 + bcnt0 && bcnt < width
    ensures forall k :: 0 <= k < bmap.Length ==> bmap[k] == if sbit0 <= k < sbit then false else old(bmap[k])
  {
    sbit, bcnt := sbit0, bcnt0;
    while bcnt >= width
      invariant sbit0 <= sbit && sbit + bcnt == sbit0 + bcnt0
      invariant forall k :: 0 <= k < bmap.Length ==> bmap[k] == if sbit0 <= k < sbit then false else old(bmap[k])
    {
      forall k | sbit <= k < sbit + width {
        bmap[k] := false;
      }
      bcnt := bcnt - width;
      sbit := sbit + width;
    }
  }

  /** Finds a clear bit: ext4_bmap_bit_find_clr. Whole words that are full are skipped; the byte in
      which a word is not full is then searched. */
  method BitFindClr(bmap: array<bool>, sbit0: nat, ebit: nat) returns (r: Option<nat>)
    requires sbit0 <= ebit <= bmap.Length
    ensures r == Answer(bmap[..], sbit0, ebit)
  {
    ghost var b := bmap[..];
    var i: nat, bcnt: nat, sbit: nat := sbit0, ebit - sbit0, sbit0;
    while i % 8 != 0
      invariant sbit0 <= i <= ByteUp(sbit0) && i + bcnt == ebit && AllSet(b, sbit0, i)
      decreases ByteUp(sbit0) - i
    {
      if bcnt == 0 {
        FirstClearIs(b, sbit0, ebit, ebit);
        return None;
      }
      if !bmap[i] {
        FirstClearIs(b, sbit0, ebit, i);
        return Some(sbit0);
      }
      i := i + 1;
      bcnt := bcnt - 1;
    }
    sbit := i;
    var stop;
    sbit, bcnt, stop := SkipFull(bmap, sbit, bcnt, 32);
    if !stop {
      sbit, bcnt, stop := SkipFull(bmap, sbit, bcnt, 16);
    }
    while bcnt >= 8
      invariant ByteUp(sbit0) <= sbit && sbit + bcnt == ebit && AllSet(b, sbit0, sbit)
    {
      if !AllSet(bmap[..], sbit, sbit + 8) {
        i := 0;
        while i < 8
          invariant 0 <= i <= 8 && AllSet(b, sbit, sbit + i)
        {
          if !bmap[sbit + i] {
            FirstClearIs(b, sbit0, ebit, sbit + i);
            return Some(sbit + i);
          }
          i := i + 1;
        }
        assert false;
      }
      bcnt := bcnt - 8;
      sbit := sbit + 8;
    }
    i := 0;
    while i < bcnt
      invariant 0 <= i <= bcnt && AllSet(b, sbit0, sbit + i)
    {
      if !bmap[sbit + i] {
        FirstClearIs(b, sbit0, ebit, sbit + i);
        return Some(sbit + i);
      }
      i := i + 1;
    }
    FirstClearIs(b, sbit0, ebit, ebit);
    return None;
  }

  /** The loops that skip full words. stop says that one was found that is not full. */
  method SkipFull(bmap: array<bool>, sbit0: nat, bcnt0: nat, width: nat) returns (sbit: nat, bcnt: nat, stop: bool)
    requires sbit0 + bcnt0 <= bmap.Length && width > 0
    ensures sbit0 <= sbit && sbit + bcnt == sbit0 + bcnt0 && AllSet(bmap[..], sbit0, sbit)
    ensures if stop then bcnt >= width && !AllSet(bmap[..], sbit, sbit + width) else bcnt < width
  {
    sbit, bcnt := sbit0, bcnt0;
    while bcnt >= width
      invariant sbit0 <= sbit && sbit + bcnt == sbit0 + bcnt0 && AllSet(bmap[..], sbit0, sbit)
    {
      if !AllSet(bmap[..], sbit, sbit + width) {
        return sbit, bcnt, true;
      }
      bcnt := bcnt - width;
      sbit := sbit + width;
    }
    stop := false;
  }
}
