/** Extents of one node or of a whole tree in logical order, and the partial map they denote.
    Models the on-disk entries of lwext4/src/ext4_extent.c. */
module ExtentEntries {

  /** Longest written extent: EXT_INIT_MAX_LEN. */
  const MAX_LEN: nat := 0x8000

  /** EXT_MAX_BLOCKS: logical blocks are below this number. */
  const MAX_BLOCKS: nat := 0xFFFF_FFFF

  datatype Err = EOK | EIO | ENOSPC

  /** Extents (leaves) and indexes (inner nodes) share their first field, as on disk. */
  datatype Entry =
    | Extent(first: nat, len: nat, start: nat)
    | Index(first: nat, leaf: nat)

  function End(e: Entry): nat
    requires e.Extent?
  {
    e.first + e.len
  }

  predicate IsExtent(e: Entry) {
    e.Extent? && 1 <= e.len <= MAX_LEN && End(e) <= MAX_BLOCKS
  }

  /** Every entry is a well-formed extent. */
  predicate Extents(es: seq<Entry>) {
    forall i {:trigger es[i]} :: 0 <= i < |es| ==> IsExtent(es[i])
  }

  /** The extents are well formed, in increasing order and do not overlap. */
  predicate Sorted(es: seq<Entry>) {
    && Extents(es)
    && (forall i, j :: 0 <= i < j < |es| ==> End(es[i]) <= es[j].first)
  }

  predicate Covers(e: Entry, b: nat) {
    e.Extent? && e.first <= b < End(e)
  }

  /** Logical to physical blocks of one extent. */
  ghost function RangeMap(e: Entry): map<nat, nat> {
    if e.Extent? then map b: nat | e.first <= b < End(e) && Covers(e, b) :: e.start + (b - e.first) else map[]
  }

  /** The partial map a sequence of extents denotes. */
  ghost function View(es: seq<Entry>): map<nat, nat> {
    if es == [] then map[] else RangeMap(es[0]) + View(es[1..])
  }

  lemma {:induction false} ViewConcat(a: seq<Entry>, b: seq<Entry>)
    ensures View(a + b) == View(a) + View(b)
  {
    if a == [] {
      assert a + b == b;
    } else {
      ViewConcat(a[1..], b);
      assert (a + b)[1..] == a[1..] + b;
      MapAssoc(RangeMap(a[0]), View(a[1..]), View(b));
    }
  }

  lemma {:induction false} ViewDomain(es: seq<Entry>, b: nat)
    ensures b in View(es) <==> exists i :: 0 <= i < |es| && Covers(es[i], b)
  {
    if es != [] {
      ViewDomain(es[1..], b);
      if i :| 0 <= i < |es| && Covers(es[i], b) {
        if i > 0 {
          assert es[1..][i - 1] == es[i];
        }
      }
      if i :| 0 <= i < |es[1..]| && Covers(es[1..][i], b) {
        assert es[i + 1] == es[1..][i];
      }
      assert b in RangeMap(es[0]) <==> Covers(es[0], b);
    }
  }

  /** In a sorted sequence the extent covering b decides where b goes. */
  lemma {:induction false} ViewAt(es: seq<Entry>, i: nat, b: nat)
    requires Sorted(es) && i < |es| && Covers(es[i], b)
    ensures b in View(es) && View(es)[b] == es[i].start + (b - es[i].first)
  {
    if i > 0 {
      assert forall j :: 0 <= j < |es[1..]| ==> es[1..][j] == es[j + 1];
      ViewAt(es[1..], i - 1, b);
    } else {
      ViewDomain(es[1..], b);
      assert forall j :: 0 <= j < |es[1..]| ==> es[1..][j] == es[j + 1] && !Covers(es[j + 1], b);
    }
  }

  /** Blocks of x are outside the map of extents that all lie on one side of x. */
  lemma {:induction false} ViewDisjoint(x: Entry, b: seq<Entry>)
    requires x.Extent?
    requires forall j :: 0 <= j < |b| ==> b[j].Extent? && (End(x) <= b[j].first || End(b[j]) <= x.first)
    ensures RangeMap(x).Keys !! View(b).Keys
  {
    forall k | k in RangeMap(x)
      ensures k !in View(b)
    {
      ViewDomain(b, k);
    }
  }

  /** Putting a new extent between two runs adds exactly its range to the map. */
  lemma {:induction false} ViewInsert(a: seq<Entry>, x: Entry, b: seq<Entry>)
    requires x.Extent?
    requires forall j :: 0 <= j < |b| ==> b[j].Extent? && End(x) <= b[j].first
    ensures View(a + [x] + b) == View(a + b) + RangeMap(x)
  {
    ViewConcat(a + [x], b);
    ViewConcat(a, [x]);
    ViewConcat(a, b);
    ViewDisjoint(x, b);
    assert View([x]) == RangeMap(x) + View([]) == RangeMap(x);
    MapSwap(View(a), RangeMap(x), View(b));
  }

  lemma {:induction false} MapAssoc(a: map<nat, nat>, b: map<nat, nat>, c: map<nat, nat>)
    ensures a + b + c == a + (b + c)
  {
  }

  lemma {:induction false} MapSwap(a: map<nat, nat>, x: map<nat, nat>, b: map<nat, nat>)
    requires x.Keys !! b.Keys
    ensures a + x + b == a + b + x
  {
  }

  lemma {:induction false} SeqAssoc(a: seq<Entry>, b: seq<Entry>, c: seq<Entry>)
    ensures (a + b) + c == a + (b + c)
  {
  }
}
