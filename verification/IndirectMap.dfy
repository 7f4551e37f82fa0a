/** The block map of ext2 and ext3 inodes: direct blocks and up to three levels of index blocks
    (lwext4/src/ext4_fs.c). */
module IndirectMap {
  import opened Common

  datatype Err = EOK | EIO | ENOSPC

  const DIRECT := 12

  /** Blocks below one entry i levels above the data. */
  function Per(p: nat, i: nat): nat {
    if i == 0 then 1 else Per(p, i - 1) * p
  }

  /** The first block number beyond level i. */
  function Limit(p: nat, i: nat): nat {
    if i == 0 then DIRECT else Limit(p, i - 1) + Per(p, i)
  }

  /** The level tables as ext4_fs_init computes them. */
  method LevelTables(blocksId: nat) returns (limits: seq<nat>, per: seq<nat>)
    ensures |limits| == |per| == 4
            && forall i :: 0 <= i < 4 ==> limits[i] == Limit(blocksId, i) && per[i] == Per(blocksId, i)
    ensures per == [1, blocksId, blocksId * blocksId, blocksId * blocksId * blocksId]
    ensures limits == [12, 12 + per[1], 12 + per[1] + per[2], 12 + per[1] + per[2] + per[3]]
  {
    Closed(blocksId);
    limits, per := [DIRECT], [1];
    var i := 1;
    while i < 4
      invariant 1 <= i <= 4 && |limits| == |per| == i
      invariant forall k :: 0 <= k < i ==> limits[k] == Limit(blocksId, k) && per[k] == Per(blocksId, k)
    {
      per := per + [per[i - 1] * blocksId];
      limits := limits + [limits[i - 1] + per[i]];
      i := i + 1;
    }
  }

  lemma {:induction false} Closed(p: nat)
    ensures Per(p, 0) == 1 && Per(p, 1) == p && Per(p, 2) == p * p && Per(p, 3) == p * p * p
    ensures Limit(p, 1) == 12 + p && Limit(p, 2) == 12 + p + p * p && Limit(p, 3) == 12 + p + p * p + p * p * p
  {
    assert Per(p, 1) == Per(p, 0) * p && Per(p, 2) == Per(p, 1) * p && Per(p, 3) == Per(p, 2) * p;
  }

  lemma {:induction false} PerPositive(p: nat, i: nat)
    requires p > 0
    ensures Per(p, i) > 0
  {
    if i > 0 {
      PerPositive(p, i - 1);
      assert Per(p, i - 1) * p >= 1;
    }
  }

  /** Taking a digit off a number from above and from below is the same. */
  lemma {:induction false} Digits(x: nat, m: nat, p: nat)
    requires m > 0 && p > 0
    ensures m * p > 0
    ensures x / m / p == x / (m * p) && x / m % p == x % (m * p) / m && x % (m * p) % m == x % m
  {
    var hi, r := x / m / p, x % m;
    var d := x / m % p;
    DivMod(x, m);
    DivMod(x / m, p);
    Positive(m, p);
    Parts(x, m, p, hi, d, r);
    Below(m, p, d, r);
    DivIs(x, m * p, hi, m * d + r);
    DivIs(m * d + r, m, d, r);
  }

  lemma {:induction false} Positive(m: nat, p: nat)
    requires m > 0 && p > 0
    ensures m * p > 0
  {
  }

  lemma {:induction false} Parts(x: nat, m: nat, p: nat, hi: nat, d: nat, r: nat)
    requires x == m * (p * hi + d) + r
    ensures x == (m * p) * hi + (m * d + r)
  {
  }

  lemma {:induction false} Below(m: nat, p: nat, d: nat, r: nat)
    requires d < p && r < m
    ensures m * d + r < m * p
  {
    Up(m, d, p);
  }

  // ---- index blocks by position ----

  /** Positions are numbered so that entry i of index block q leads to position p * q + i. */
  function Child(p: nat, q: nat, i: nat): nat {
    p * q + i
  }

  function Parent(p: nat, q: nat): nat
    requires p > 0
  {
    q / p
  }

  function Entry(p: nat, q: nat): (e: nat)
    requires p > 0
    ensures e < p
  {
    q % p
  }

  lemma {:induction false} ChildOf(p: nat, q: nat, i: nat)
    requires i < p
    ensures Parent(p, Child(p, q, i)) == q && Entry(p, Child(p, q, i)) == i
  {
    DivIs(p * q + i, p, q, i);
  }

  lemma {:induction false} OwnChild(p: nat, q: nat)
    requires p > 0
    ensures Child(p, Parent(p, q), Entry(p, q)) == q
  {
    DivMod(q, p);
  }

  /** Index block or data block d levels below the inode's entry for level r, at position q there;
      0 if there is none. */
  function Node(ind: seq<nat>, tables: map<nat, seq<nat>>, p: nat, r: nat, d: nat, q: nat): nat
    requires p > 0 && 1 <= r <= |ind|
    decreases d
  {
    if d == 0 then ind[r - 1]
    else
      var t := Node(ind, tables, p, r, d - 1, Parent(p, q));
      if t in tables && Entry(p, q) < |tables[t]| then tables[t][Entry(p, q)] else 0
  }

  /** q is a number of d digits. */
  ghost predicate Pos(p: nat, d: nat, q: nat)
    requires p > 0
    decreases d
  {
    if d == 0 then q == 0 else Pos(p, d - 1, Parent(p, q))
  }

  lemma {:induction false} PosBelow(p: nat, d: nat, q: nat)
    requires p > 0 && q < Per(p, d)
    ensures Pos(p, d, q)
    decreases d
  {
    if d > 0 {
      QuotientBelow(q, p, Per(p, d - 1));
      PosBelow(p, d - 1, Parent(p, q));
    }
  }

  lemma {:induction false} QuotientBelow(q: nat, p: nat, n: nat)
    requires p > 0 && q < n * p
    ensures Parent(p, q) < n
  {
    DivMod(q, p);
    Up(p, n - 1, q / p);
    assert p * (n - 1) + p == n * p;
  }

  /** Position (d, q) is (e, s) or lies below it. */
  ghost predicate Under(p: nat, d: nat, q: nat, e: nat, s: nat)
    requires p > 0
    decreases d
  {
    if d < e then false else if d == e then q == s else Under(p, d - 1, Parent(p, q), e, s)
  }

  /** There is an index block at this position. */
  ghost predicate IsIndex(ind: seq<nat>, tables: map<nat, seq<nat>>, p: nat, r: int, d: nat, q: nat)
    requires p > 0 && |ind| == 3
  {
    1 <= r <= 3 && d < r && Pos(p, d, q) && Node(ind, tables, p, r, d, q) != 0
  }

  /** Every index block that an entry leads to is there, and no two positions share one. */
  ghost predicate MapOk(ind: seq<nat>, tables: map<nat, seq<nat>>, p: nat) {
    && p > 0 && |ind| == 3 && 0 !in tables
    && (forall b :: b in tables ==> |tables[b]| == p)
    && (forall r, d: nat, q: nat :: IsIndex(ind, tables, p, r, d, q) ==> Node(ind, tables, p, r, d, q) in tables)
    && (forall r, d: nat, q: nat, r', d': nat, q': nat ::
          IsIndex(ind, tables, p, r, d, q) && IsIndex(ind, tables, p, r', d', q')
              && Node(ind, tables, p, r, d, q) == Node(ind, tables, p, r', d', q')
          ==> r == r' && d == d' && q == q')
  }

  function Put(tables: map<nat, seq<nat>>, t: nat, i: nat, v: nat): (tables': map<nat, seq<nat>>)
    requires t in tables && i < |tables[t]|
    ensures tables'.Keys == tables.Keys
    ensures forall b :: b in tables ==> |tables'[b]| == |tables[b]|
    ensures forall b, k :: b in tables && 0 <= k < |tables[b]| ==>
              tables'[b][k] == if b == t && k == i then v else tables[b][k]
  {
    var es: seq<nat> := tables[t][..i] + [v] + tables[t][i + 1..];
    tables[t := es]
  }

  /** Writing an entry of an index block changes only the nodes that the entry leads to. */
  lemma {:induction false} NodeFrame(ind: seq<nat>, tables: map<nat, seq<nat>>, p: nat, r: nat, d: nat, q: nat, i: nat,
          v: nat, r': nat, d': nat, q': nat)
    requires p > 0 && |ind| == 3 && MapOk(ind, tables, p) && 1 <= r <= 3 && IsIndex(ind, tables, p, r, d, q) && i < p
    requires 1 <= r' <= 3 && d' <= r' && Pos(p, d', q')
    requires !(r' == r && Under(p, d', q', d + 1, Child(p, q, i)))
    ensures var t := Node(ind, tables, p, r, d, q);
            t in tables && |tables[t]| == p
                && Node(ind, Put(tables, t, i, v), p, r', d', q') == Node(ind, tables, p, r', d', q')
    decreases d'
  {
    hide MapOk, Put, Parent, Entry, Child, IsIndex;
    var t := Node(ind, tables, p, r, d, q);
    TableIn(ind, tables, p, r, d, q);
    if d' > 0 {
      NodeFrame(ind, tables, p, r, d, q, i, v, r', d' - 1, Parent(p, q'));
      if Node(ind, tables, p, r', d' - 1, Parent(p, q')) == t {
        SamePlace(ind, tables, p, r, d, q, r', d' - 1, Parent(p, q'));
        OwnChild(p, q');
      }
    }
  }

  lemma {:induction false} TableIn(ind: seq<nat>, tables: map<nat, seq<nat>>, p: nat, r: nat, d: nat, q: nat)
    requires p > 0 && |ind| == 3 && MapOk(ind, tables, p) && IsIndex(ind, tables, p, r, d, q)
    ensures Node(ind, tables, p, r, d, q) in tables && |tables[Node(ind, tables, p, r, d, q)]| == p
            && Node(ind, tables, p, r, d, q) != 0
  {
  }

  lemma {:induction false} SamePlace(ind: seq<nat>, tables: map<nat, seq<nat>>, p: nat, r: nat, d: nat, q: nat, r': nat,
          d': nat, q': nat)
    requires p > 0 && |ind| == 3 && MapOk(ind, tables, p) && IsIndex(ind, tables, p, r, d, q)
    requires 1 <= r' <= 3 && d' < r' && Pos(p, d', q')
             && Node(ind, tables, p, r', d', q') == Node(ind, tables, p, r, d, q)
    ensures r' == r && d' == d && q' == q
  {
    assert IsIndex(ind, tables, p, r', d', q');
  }

  lemma {:induction false} IndexIs(ind: seq<nat>, tables: map<nat, seq<nat>>, p: nat, r: nat, d: nat, q: nat)
    requires p > 0 && |ind| == 3 && 1 <= r <= 3
    ensures IsIndex(ind, tables, p, r, d, q) <==> d < r && Pos(p, d, q) && Node(ind, tables, p, r, d, q) != 0
  {
  }

  /** All nodes are as they were, but for the one at (r, d, q), which is v now. */
  ghost predicate OneNode(ind: seq<nat>, tables: map<nat, seq<nat>>, ind': seq<nat>, tables': map<nat, seq<nat>>,
          p: nat, r: nat, d: nat, q: nat, v: nat)
    requires p > 0 && |ind| == |ind'| == 3
  {
    forall r': nat, d': nat, q': nat {:trigger Node(ind', tables', p, r', d', q')} ::
      1 <= r' <= 3 && d' <= r' && Pos(p, d', q') ==>
      Node(ind', tables', p, r', d', q') == if r' == r && d' == d && q' == q then v
                                            else Node(ind, tables, p, r', d', q')
  }

  /** The entry of a data block is written. */
  lemma {:induction false} DataPut(ind: seq<nat>, tables: map<nat, seq<nat>>, p: nat, r: nat, q: nat, i: nat, v: nat)
    requires p > 0 && |ind| == 3 && MapOk(ind, tables, p) && 1 <= r <= 3 && IsIndex(ind, tables, p, r, r - 1, q)
             && i < p
    ensures var t := Node(ind, tables, p, r, r - 1, q);
            && t in tables && |tables[t]| == p
            && OneNode(ind, tables, ind, Put(tables, t, i, v), p, r, r, Child(p, q, i), v)
            && MapOk(ind, Put(tables, t, i, v), p)
  {
    hide MapOk, Put, Parent, Entry, Child, IsIndex, Pos;
    TableIn(ind, tables, p, r, r - 1, q);
    var t := Node(ind, tables, p, r, r - 1, q);
    var tables' := Put(tables, t, i, v);
    var s := Child(p, q, i);
    IndexIs(ind, tables, p, r, r - 1, q);
    ChildOf(p, q, i);
    forall r': nat, d': nat, q': nat | 1 <= r' <= 3 && d' <= r' && Pos(p, d', q')
      ensures Node(ind, tables', p, r', d', q') == if r' == r && d' == r && q' == s then v
                                                   else Node(ind, tables, p, r', d', q')
    {
      if r' == r && d' == r && q' == s {
        NotUnder(p, r - 1, q, r, s);
        NodeFrame(ind, tables, p, r, r - 1, q, i, v, r, r - 1, q);
      } else {
        if r' == r {
          NotUnder(p, d', q', r, s);
        }
        NodeFrame(ind, tables, p, r, r - 1, q, i, v, r', d', q');
      }
    }
    SameIndexes(ind, tables, ind, tables', p, r, s, v);
  }

  /** Nothing lies below a position of the last level but itself. */
  lemma {:induction false} NotUnder(p: nat, d: nat, q: nat, e: nat, s: nat)
    requires p > 0 && d <= e
    ensures Under(p, d, q, e, s) <==> d == e && q == s
  {
  }

  lemma {:induction false} SameIndexes(ind: seq<nat>, tables: map<nat, seq<nat>>, ind': seq<nat>,
          tables': map<nat, seq<nat>>, p: nat, r: nat, q: nat, v: nat)
    requires p > 0 && |ind| == |ind'| == 3 && MapOk(ind, tables, p) && 1 <= r <= 3
    requires OneNode(ind, tables, ind', tables', p, r, r, q, v)
    requires tables'.Keys == tables.Keys && forall b :: b in tables ==> |tables'[b]| == |tables[b]|
    ensures MapOk(ind', tables', p)
  {
    forall r', d': nat, q': nat | IsIndex(ind', tables', p, r', d', q')
      ensures IsIndex(ind, tables, p, r', d', q')
              && Node(ind', tables', p, r', d', q') == Node(ind, tables, p, r', d', q')
    {
      assert Node(ind', tables', p, r', d', q') == Node(ind, tables, p, r', d', q');
    }
  }

  // ---- a new index block ----

  function Zeros(p: nat): (z: seq<nat>)
    ensures |z| == p && forall i {:trigger z[i]} :: 0 <= i < p ==> z[i] == 0
  {
    seq(p, _ => 0)
  }

  /** A block no entry leads to may be added. */
  lemma {:induction false} NodeAdd(ind: seq<nat>, tables: map<nat, seq<nat>>, p: nat, nb: nat, r: nat, d: nat, q: nat)
    requires p > 0 && |ind| == 3 && MapOk(ind, tables, p) && nb !in tables && 1 <= r <= 3 && d <= r && Pos(p, d, q)
    ensures Node(ind, tables[nb := Zeros(p)], p, r, d, q) == Node(ind, tables, p, r, d, q)
    decreases d
  {
    hide MapOk, Parent, Entry, IsIndex;
    if d > 0 {
      NodeAdd(ind, tables, p, nb, r, d - 1, Parent(p, q));
      var t := Node(ind, tables, p, r, d - 1, Parent(p, q));
      if t == nb {
        IndexIs(ind, tables, p, r, d - 1, Parent(p, q));
        if t != 0 {
          TableIn(ind, tables, p, r, d - 1, Parent(p, q));
        }
      }
    }
  }

  /** Below an entry that is 0 everything is 0. */
  lemma {:induction false} ZeroBelow(ind: seq<nat>, tables: map<nat, seq<nat>>, p: nat, r: nat, d: nat, q: nat, e: nat,
          s: nat)
    requires p > 0 && |ind| == 3 && 1 <= r <= 3 && 0 !in tables && Under(p, d, q, e, s)
             && Node(ind, tables, p, r, e, s) == 0
    ensures Node(ind, tables, p, r, d, q) == 0
    decreases d
  {
    hide Parent, Entry;
    if d > e {
      ZeroBelow(ind, tables, p, r, d - 1, Parent(p, q), e, s);
    }
  }

  /** Below a block of zeros everything is 0. */
  lemma {:induction false} ZeroTable(ind: seq<nat>, tables: map<nat, seq<nat>>, p: nat, r: nat, d: nat, q: nat, e: nat,
          s: nat)
    requires p > 0 && |ind| == 3 && 1 <= r <= 3 && 0 !in tables && Under(p, d, q, e, s) && d > e
    requires var t := Node(ind, tables, p, r, e, s); t in tables && tables[t] == Zeros(p)
    ensures Node(ind, tables, p, r, d, q) == 0
    decreases d
  {
    hide Parent, Entry;
    if d - 1 > e {
      ZeroTable(ind, tables, p, r, d - 1, Parent(p, q), e, s);
    }
  }

  /** A new block of zeros under an entry that was 0: no data block changes. */
  lemma {:induction false} TableLinked(ind: seq<nat>, tables: map<nat, seq<nat>>, p: nat, r: nat, d: nat, q: nat,
          i: nat, nb: nat)
    requires p > 0 && |ind| == 3 && MapOk(ind, tables, p) && 1 <= r <= 3 && d + 1 < r
             && IsIndex(ind, tables, p, r, d, q) && i < p
    requires nb !in tables && nb != 0
    requires var t := Node(ind, tables, p, r, d, q); t in tables && i < |tables[t]| && tables[t][i] == 0
    ensures var t := Node(ind, tables, p, r, d, q); var tables' := Put(tables[nb := Zeros(p)], t, i, nb);
            OneNode(ind, tables, ind, tables', p, r, d + 1, Child(p, q, i), nb) && MapOk(ind, tables', p)
  {
    hide MapOk, Put, Parent, Entry, Child, IsIndex, Pos, Zeros;
    var t := Node(ind, tables, p, r, d, q);
    TableIn(ind, tables, p, r, d, q);
    IndexIs(ind, tables, p, r, d, q);
    ChildOf(p, q, i);
    var s := Child(p, q, i);
    ZeroNot(ind, tables, p);
    var mid := tables[nb := Zeros(p)];
    forall r': nat, d': nat, q': nat | 1 <= r' <= 3 && d' <= r' && Pos(p, d', q')
      ensures Node(ind, mid, p, r', d', q') == Node(ind, tables, p, r', d', q')
    {
      NodeAdd(ind, tables, p, nb, r', d', q');
    }
    AddedOk(ind, tables, p, nb);
    IndexIs(ind, mid, p, r, d, q);
    var tables' := Put(mid, t, i, nb);
    NotUnder(p, d, q, d + 1, s);
    NodeFrame(ind, mid, p, r, d, q, i, nb, r, d, q);
    assert Node(ind, tables', p, r, d + 1, s) == nb;
    assert Node(ind, tables, p, r, d + 1, s) == 0;
    forall r': nat, d': nat, q': nat | 1 <= r' <= 3 && d' <= r' && Pos(p, d', q')
      ensures Node(ind, tables', p, r', d', q') == if r' == r && d' == d + 1 && q' == s then nb
                                                   else Node(ind, tables, p, r', d', q')
    {
      if r' == r && Under(p, d', q', d + 1, s) {
        ZeroBelow(ind, tables, p, r, d', q', d + 1, s);
        if d' > d + 1 {
          ZeroTable(ind, tables', p, r, d', q', d + 1, s);
        } else {
          NotUnder(p, d', q', d + 1, s);
        }
      } else {
        NotUnderSelf(p, d + 1, s);
        NodeFrame(ind, mid, p, r, d, q, i, nb, r', d', q');
      }
    }
    Sizes(ind, tables, p);
    assert tables'.Keys == tables.Keys + {nb};
    LinkedOk(ind, tables, ind, tables', p, r, d + 1, s, nb);
  }

  lemma {:induction false} NotUnderSelf(p: nat, e: nat, s: nat)
    requires p > 0
    ensures Under(p, e, s, e, s)
  {
  }

  lemma {:induction false} ZeroNot(ind: seq<nat>, tables: map<nat, seq<nat>>, p: nat)
    requires MapOk(ind, tables, p)
    ensures 0 !in tables
  {
  }

  lemma {:induction false} AddedOk(ind: seq<nat>, tables: map<nat, seq<nat>>, p: nat, nb: nat)
    requires p > 0 && |ind| == 3 && MapOk(ind, tables, p) && nb !in tables && nb != 0
    requires forall r': nat, d': nat, q': nat {:trigger Node(ind, tables[nb := Zeros(p)], p, r', d', q')} ::
               1 <= r' <= 3 && d' <= r' && Pos(p, d', q') ==>
               Node(ind, tables[nb := Zeros(p)], p, r', d', q') == Node(ind, tables, p, r', d', q')
    ensures MapOk(ind, tables[nb := Zeros(p)], p)
  {
    var mid := tables[nb := Zeros(p)];
    forall r', d': nat, q': nat | IsIndex(ind, mid, p, r', d', q')
      ensures IsIndex(ind, tables, p, r', d', q') && Node(ind, mid, p, r', d', q') == Node(ind, tables, p, r', d', q')
    {
      assert Node(ind, mid, p, r', d', q') == Node(ind, tables, p, r', d', q');
    }
  }

  lemma {:induction false} LinkedOk(ind: seq<nat>, tables: map<nat, seq<nat>>, ind': seq<nat>,
          tables': map<nat, seq<nat>>, p: nat, r: nat, d: nat, q: nat, nb: nat)
    requires p > 0 && |ind| == |ind'| == 3 && MapOk(ind, tables, p) && nb !in tables && nb != 0
    requires OneNode(ind, tables, ind', tables', p, r, d, q, nb)
    requires tables'.Keys == tables.Keys + {nb} && forall b :: b in tables' ==> |tables'[b]| == p
    ensures MapOk(ind', tables', p)
  {
    forall r', d': nat, q': nat | IsIndex(ind', tables', p, r', d', q')
      ensures Node(ind', tables', p, r', d', q') in tables'
      ensures if r' == r && d' == d && q' == q then Node(ind', tables', p, r', d', q') == nb
              else IsIndex(ind, tables, p, r', d', q')
                   && Node(ind', tables', p, r', d', q') == Node(ind, tables, p, r', d', q')
    {
      assert Node(ind', tables', p, r', d', q') == if r' == r && d' == d && q' == q then nb
                                                   else Node(ind, tables, p, r', d', q');
    }
  }

  /** A new block of zeros as the first of a level. */
  lemma {:induction false} RootLinked(ind: seq<nat>, tables: map<nat, seq<nat>>, p: nat, r: nat, nb: nat)
    requires p > 0 && |ind| == 3 && MapOk(ind, tables, p) && 1 <= r <= 3 && ind[r - 1] == 0 && nb !in tables && nb != 0
    ensures var ind' := ind[..r - 1] + [nb] + ind[r..];
            |ind'| == 3 && OneNode(ind, tables, ind', tables[nb := Zeros(p)], p, r, 0, 0, nb)
                && MapOk(ind', tables[nb := Zeros(p)], p)
  {
    hide MapOk, Parent, Entry, IsIndex, Zeros;
    ZeroNot(ind, tables, p);
    var ind' := ind[..r - 1] + [nb] + ind[r..];
    var tables' := tables[nb := Zeros(p)];
    forall r': nat, d': nat, q': nat | 1 <= r' <= 3 && d' <= r' && Pos(p, d', q')
      ensures Node(ind', tables', p, r', d', q') == if r' == r && d' == 0 && q' == 0 then nb
                                                    else Node(ind, tables, p, r', d', q')
    {
      if r' == r {
        PosUnder(p, d', q');
        ZeroBelow(ind, tables, p, r, d', q', 0, 0);
        if d' > 0 {
          ZeroTable(ind', tables', p, r, d', q', 0, 0);
        }
      } else {
        RootFrame(ind, ind', tables, tables', p, r, r', d', q', nb);
      }
    }
    Sizes(ind, tables, p);
    LinkedOk(ind, tables, ind', tables', p, r, 0, 0, nb);
  }

  lemma {:induction false} Sizes(ind: seq<nat>, tables: map<nat, seq<nat>>, p: nat)
    requires MapOk(ind, tables, p)
    ensures forall b :: b in tables ==> |tables[b]| == p
  {
  }

  lemma {:induction false} PosUnder(p: nat, d: nat, q: nat)
    requires p > 0 && Pos(p, d, q)
    ensures Under(p, d, q, 0, 0)
    decreases d
  {
    if d > 0 {
      PosUnder(p, d - 1, Parent(p, q));
    }
  }

  lemma {:induction false} RootFrame(ind: seq<nat>, ind': seq<nat>, tables: map<nat, seq<nat>>,
          tables': map<nat, seq<nat>>, p: nat, r: nat, r': nat, d: nat, q: nat, nb: nat)
    requires p > 0 && |ind| == |ind'| == 3 && MapOk(ind, tables, p) && 1 <= r <= 3 && nb !in tables
             && tables' == tables[nb := Zeros(p)]
    requires 1 <= r' <= 3 && ind'[r' - 1] == ind[r' - 1] && d <= r' && Pos(p, d, q)
    ensures Node(ind', tables', p, r', d, q) == Node(ind, tables, p, r', d, q)
    decreases d
  {
    hide MapOk, Parent, Entry, IsIndex;
    if d > 0 {
      RootFrame(ind, ind', tables, tables', p, r, r', d - 1, Parent(p, q), nb);
      NodeAdd(ind, tables, p, nb, r', d, q);
      NodeAdd(ind, tables, p, nb, r', d - 1, Parent(p, q));
    }
  }

  // ---- blocks of a file ----

  /** The level a block number needs, 0 for none. */
  function LevelOf(p: nat, iblock: nat): (l: nat)
    ensures l <= 3 && (l > 0 ==> Limit(p, l) > iblock) && (l == 0 ==> forall i :: 1 <= i <= 3 ==> iblock >= Limit(p, i))
    ensures l > 0 && iblock >= DIRECT ==> Limit(p, l - 1) <= iblock < Limit(p, l - 1) + Per(p, l)
  {
    if iblock < Limit(p, 1) then 1 else if iblock < Limit(p, 2) then 2 else if iblock < Limit(p, 3) then 3 else 0
  }

  /** The block a file block is mapped to, 0 if to none. */
  function BlockAt(direct: seq<nat>, ind: seq<nat>, tables: map<nat, seq<nat>>, p: nat, iblock: nat): nat
    requires p > 0 && |direct| == DIRECT && |ind| == 3
  {
    if iblock < DIRECT then direct[iblock]
    else
      var l := LevelOf(p, iblock);
      if l == 0 then 0 else Node(ind, tables, p, l, l, iblock - Limit(p, l - 1))
  }

  /** The position i levels above a data block at offset off of its level. */
  function Above(p: nat, off: nat, i: nat): nat
    requires p > 0
  {
    PerPositive(p, i);
    off / Per(p, i)
  }

  /** What is left of an offset below a position i levels above. */
  function Rest(p: nat, off: nat, i: nat): nat
    requires p > 0
  {
    PerPositive(p, i);
    off % Per(p, i)
  }

  /** Entry i of index block t, 0 if there is none. */
  function Word(tables: map<nat, seq<nat>>, t: nat, i: nat): nat {
    if t in tables && i < |tables[t]| then tables[t][i] else 0
  }

  /** Where each block number stands: 12 in the inode, those of one index block behind them, and then those
      below two and three levels of index blocks, each level in order. */
  lemma {:induction false} Layout(direct: seq<nat>, ind: seq<nat>, tables: map<nat, seq<nat>>, p: nat, i: nat, j: nat,
          k: nat, p2: nat, a: nat, b: nat)
    requires |direct| == 12 && |ind| == 3 && i < p && j < p && k < p
    requires p2 == p * p && a == p * j + k && b == p2 * i + a
    ensures k < 12 ==> BlockAt(direct, ind, tables, p, k) == direct[k]
    ensures BlockAt(direct, ind, tables, p, 12 + k) == Word(tables, ind[0], k)
    ensures BlockAt(direct, ind, tables, p, 12 + p + a) == Word(tables, Word(tables, ind[1], j), k)
    ensures BlockAt(direct, ind, tables, p, 12 + p + p2 + b) ==
            Word(tables, Word(tables, Word(tables, ind[2], i), j), k)
  {
    hide Node, Per, Limit, Word;
    Closed(p);
    LimitZero(p);
    ThreeDigits(p, i, j, k, p2, a, b);
    NodeOne(ind, tables, p, k);
    NodeTwo(ind, tables, p, a, j, k);
    NodeThree(ind, tables, p, b, i, j, k);
  }

  lemma {:induction false} ThreeDigits(p: nat, i: nat, j: nat, k: nat, p2: nat, a: nat, b: nat)
    requires i < p && j < p && k < p && p2 == p * p && a == p * j + k && b == p2 * i + a
    ensures a < p2 && a / p == j && a % p == k
    ensures b < p2 * p && b / p / p == i && b / p % p == j && b % p == k
  {
    Below(p, p, j, k);
    Below(p2, p, i, a);
    var c := p * i + j;
    assert b == p * c + k by {
      Parts(b, p, p, i, j, k);
    }
    DivIs(a, p, j, k);
    DivIs(b, p, c, k);
    DivIs(c, p, i, j);
  }

  lemma {:induction false} LimitZero(p: nat)
    ensures Limit(p, 0) == 12
  {
  }

  lemma {:induction false} NodeStep(ind: seq<nat>, tables: map<nat, seq<nat>>, p: nat, r: nat, d: nat, q: nat)
    requires p > 0 && 1 <= r <= |ind| && d > 0
    ensures Node(ind, tables, p, r, d, q) == Word(tables, Node(ind, tables, p, r, d - 1, q / p), q % p)
    ensures Node(ind, tables, p, r, 0, q) == ind[r - 1]
  {
  }

  lemma {:induction false} NodeOne(ind: seq<nat>, tables: map<nat, seq<nat>>, p: nat, q: nat)
    requires |ind| == 3 && q < p
    ensures Node(ind, tables, p, 1, 1, q) == Word(tables, ind[0], q)
  {
    hide Node, Word;
    NodeStep(ind, tables, p, 1, 1, q);
    NodeStep(ind, tables, p, 1, 1, q / p);
    DivIs(q, p, 0, q);
  }

  lemma {:induction false} NodeTwo(ind: seq<nat>, tables: map<nat, seq<nat>>, p: nat, q: nat, j: nat, k: nat)
    requires |ind| == 3 && j < p && q / p == j && q % p == k
    ensures Node(ind, tables, p, 2, 2, q) == Word(tables, Word(tables, ind[1], j), k)
  {
    hide Node, Word;
    NodeStep(ind, tables, p, 2, 2, q);
    NodeStep(ind, tables, p, 2, 1, q / p);
    NodeStep(ind, tables, p, 2, 1, q / p / p);
    DivIs(j, p, 0, j);
  }

  lemma {:induction false} NodeThree(ind: seq<nat>, tables: map<nat, seq<nat>>, p: nat, q: nat, i: nat, j: nat, k: nat)
    requires |ind| == 3 && i < p && q / p / p == i && q / p % p == j && q % p == k
    ensures Node(ind, tables, p, 3, 3, q) == Word(tables, Word(tables, Word(tables, ind[2], i), j), k)
  {
    hide Node, Word;
    NodeStep(ind, tables, p, 3, 3, q);
    NodeStep(ind, tables, p, 3, 2, q / p);
    NodeStep(ind, tables, p, 3, 1, q / p / p);
    NodeStep(ind, tables, p, 3, 1, q / p / p / p);
    DivIs(i, p, 0, i);
  }

  /** The entry the code computes on its way down is the digit of the position. */
  lemma {:induction false} StepDown(p: nat, off: nat, l: nat)
    requires p > 0 && l > 0
    ensures Above(p, Rest(p, off, l), l - 1) < p
    ensures Above(p, off, l - 1) == Child(p, Above(p, off, l), Above(p, Rest(p, off, l), l - 1))
    ensures Rest(p, Rest(p, off, l), l - 1) == Rest(p, off, l - 1)
    ensures Parent(p, Above(p, off, l - 1)) == Above(p, off, l)
  {
    PerPositive(p, l);
    PerPositive(p, l - 1);
    Digits(off, Per(p, l - 1), p);
    DivMod(off / Per(p, l - 1), p);
    assert Entry(p, Above(p, off, l - 1)) == Above(p, Rest(p, off, l), l - 1);
  }

  /** The entry that is taken i levels above the data block. */
  function Digit(p: nat, off: nat, i: nat): nat
    requires p > 0 && i > 0
  {
    Above(p, Rest(p, off, i), i - 1)
  }

  function OffsetOf(p: nat, iblock: nat): nat
    requires iblock >= DIRECT && LevelOf(p, iblock) > 0
  {
    iblock - Limit(p, LevelOf(p, iblock) - 1)
  }

  /** The way to a block is its own: two block numbers are the same exactly if they have the same level
      and the same entry is taken in every index block on the way. */
  lemma {:induction false} PathUnique(p: nat, x: nat, y: nat)
    requires p > 0 && DIRECT <= x < Limit(p, 3) && DIRECT <= y < Limit(p, 3)
    ensures LevelOf(p, x) > 0 && LevelOf(p, y) > 0
    ensures x == y <==> LevelOf(p, x) == LevelOf(p, y)
                        && forall i {:trigger Digit(p, OffsetOf(p, x), i)} :: 1 <= i <= LevelOf(p, x) ==>
                             Digit(p, OffsetOf(p, x), i) == Digit(p, OffsetOf(p, y), i)
  {
    LevelBelow(p, x);
    LevelBelow(p, y);
    var l := LevelOf(p, x);
    LevelRange(p, x);
    LevelRange(p, y);
    hide LevelOf, Limit, Digit;
    if l == LevelOf(p, y)
       && forall i {:trigger Digit(p, OffsetOf(p, x), i)} :: 1 <= i <= l ==>
            Digit(p, OffsetOf(p, x), i) == Digit(p, OffsetOf(p, y), i) {
      TopOf(p, OffsetOf(p, x), l);
      TopOf(p, OffsetOf(p, y), l);
      SameAbove(p, OffsetOf(p, x), OffsetOf(p, y), l, 0);
    }
  }

  lemma {:induction false} SameAbove(p: nat, x: nat, y: nat, l: nat, i: nat)
    requires p > 0 && l > 0 && i <= l && Above(p, x, l) == Above(p, y, l)
    requires forall k {:trigger Digit(p, x, k)} :: 1 <= k <= l ==> Digit(p, x, k) == Digit(p, y, k)
    ensures Above(p, x, i) == Above(p, y, i)
    decreases l - i
  {
    if i < l {
      SameAbove(p, x, y, l, i + 1);
      StepDown(p, x, i + 1);
      StepDown(p, y, i + 1);
      assert Digit(p, x, i + 1) == Digit(p, y, i + 1);
    }
  }

  /** From the top of the level, at position 0, to the data block. */
  lemma {:induction false} TopOf(p: nat, off: nat, l: nat)
    requires p > 0 && l > 0 && off < Per(p, l)
    ensures Above(p, off, l) == 0 && Rest(p, off, l) == off && Above(p, off, 0) == off
  {
    DivIs(off, Per(p, l), 0, off);
    DivIs(off, 1, off, 0);
  }

  /** Every position on the way is one of so many digits. */
  lemma {:induction false} AbovePos(p: nat, off: nat, l: nat, d: nat)
    requires p > 0 && l > 0 && off < Per(p, l) && d <= l
    ensures Pos(p, d, Above(p, off, l - d))
    decreases d
  {
    hide Above, Parent;
    if d == 0 {
      TopOf(p, off, l);
    } else {
      AbovePos(p, off, l, d - 1);
      StepDown(p, off, l - d + 1);
    }
  }

  class File {
    const p: nat
    var size: nat
    var direct: seq<nat>
    var indirect: seq<nat>
    var tables: map<nat, seq<nat>>
    /** Blocks the allocator will give out, in order. */
    var pool: seq<nat>

    ghost predicate Valid()
      reads this
    {
      && p > 0 && |direct| == DIRECT && |indirect| == 3 && MapOk(indirect, tables, p)
      && (forall i :: 0 <= i < |pool| ==> pool[i] != 0 && pool[i] !in tables)
      && (forall i, j :: 0 <= i < j < |pool| ==> pool[i] != pool[j])
    }

    function Block(iblock: nat): nat
      requires p > 0 && |direct| == DIRECT && |indirect| == 3
      reads this
    {
      BlockAt(direct, indirect, tables, p, iblock)
    }

    /** The loop that looks for the level of a block. */
    method FindLevel(iblock: nat) returns (l: nat)
      ensures l == LevelOf(p, iblock)
    {
      l := 0;
      var i := 1;
      while i < 4
        invariant 1 <= i <= 4 && l == 0 && forall k :: 1 <= k < i ==> iblock >= Limit(p, k)
      {
        if iblock < Limit(p, i) {
          l := i;
          return;
        }
        i := i + 1;
      }
    }

    /** Looks a block up: ext4_fs_get_inode_dblk_idx_internal. */
    method Get(iblock: nat) returns (err: Err, fblock: nat)
      requires Valid()
      ensures err == if size > 0 && iblock >= Limit(p, 3) then EIO else EOK
      ensures err == EOK ==> fblock == if size == 0 then 0 else Block(iblock)
    {
      hide MapOk, Node, Parent, Entry, Child, Above, Rest, IsIndex, Pos;
      if size == 0 {
        return EOK, 0;
      }
      if iblock < DIRECT {
        DirectBelow(p);
        return EOK, direct[iblock];
      }
      var l := FindLevel(iblock);
      if l == 0 {
        return EIO, 0;
      }
      ghost var r, off := l, iblock - Limit(p, l - 1);
      LevelBelow(p, iblock);
      TopOf(p, off, r);
      RootNode(indirect, tables, p, r);
      var blkOff := iblock - Limit(p, l - 1);
      var current := indirect[l - 1];
      var offInBlk := Above(p, blkOff, l - 1);
      if current == 0 {
        AllZero(indirect, tables, p, r, off, r);
        return EOK, 0;
      }
      while l > 0
        invariant 0 <= l <= r && current != 0 && current == Node(indirect, tables, p, r, r - l, Above(p, off, l))
        invariant l > 0 ==> blkOff == Rest(p, off, l) && offInBlk == Above(p, blkOff, l - 1)
      {
        GoDown(indirect, tables, p, r, off, l);
        current := tables[current][offInBlk];
        if current == 0 {
          AllZero(indirect, tables, p, r, off, l - 1);
          return EOK, 0;
        }
        l := l - 1;
        if l == 0 {
          break;
        }
        StepDown(p, off, l + 1);
        blkOff := Rest(p, blkOff, l);
        offInBlk := Above(p, blkOff, l - 1);
      }
      return EOK, current;
    }

    /** A fresh block of zeros from the allocator. */
    method NewTable() returns (nb: nat)
      requires Valid() && pool != []
      modifies this`pool, this`tables
      ensures nb == old(pool)[0] && nb != 0 && nb !in old(tables) && pool == old(pool)[1..]
              && tables == old(tables)[nb := Zeros(p)]
      ensures forall i :: 0 <= i < |pool| ==> pool[i] != 0 && pool[i] !in tables
      ensures forall i, j :: 0 <= i < j < |pool| ==> pool[i] != pool[j]
    {
      nb := pool[0];
      pool := pool[1..];
      tables := tables[nb := Zeros(p)];
    }

    /** Adds the index block that entry i of block t should lead to. */
    method LinkTable(t: nat, i: nat, ghost r: nat, ghost off: nat, ghost l: nat, ghost ind0: seq<nat>,
                     ghost tables0: map<nat, seq<nat>>, ghost v: nat) returns (nb: nat)
      requires Valid() && pool != [] && 1 < l <= r <= 3 && off < Per(p, r) && |ind0| == 3
      requires t == Node(indirect, tables, p, r, r - l, Above(p, off, l)) != 0 && i == Above(p, Rest(p, off, l), l - 1)
      requires Node(indirect, tables, p, r, r - l + 1, Above(p, off, l - 1)) == 0
      requires MapsAs(ind0, tables0, indirect, tables, p, 0, off, v)
      modifies this`tables, this`pool
      ensures Valid() && nb != 0 && nb == Node(indirect, tables, p, r, r - l + 1, Above(p, off, l - 1))
      ensures MapsAs(ind0, tables0, indirect, tables, p, 0, off, v)
      ensures pool == old(pool)[1..]
      ensures |pool| - Missing(indirect, tables, p, r, off, l - 1) ==
              old(|pool| - Missing(indirect, tables, p, r, off, l - 1))
    {
      hide MapOk, Node, Parent, Entry, Child, Above, Rest, IsIndex, Pos, Put, Zeros, MapsAs, Missing;
      ghost var was := tables;
      nb := NewTable();
      TableStep(ind0, tables0, indirect, was, p, r, off, l, nb, v);
      tables := Put(tables, t, i, nb);
    }

    /** Index blocks that mapping a block takes. */
    function Wanted(iblock: nat): nat
      requires Valid() && DIRECT <= iblock && LevelOf(p, iblock) > 0
      reads this
    {
      Missing(indirect, tables, p, LevelOf(p, iblock), OffsetOf(p, iblock), LevelOf(p, iblock))
    }

    /** What is left of the pool after blocks were taken from its front. */
    ghost predicate IsTail(pool0: seq<nat>, pool: seq<nat>) {
      |pool| <= |pool0| && pool == pool0[|pool0| - |pool|..]
    }

    lemma {:induction false} TailAll(pool: seq<nat>)
      ensures IsTail(pool, pool)
    {
    }

    lemma {:induction false} TailNext(pool0: seq<nat>, pool: seq<nat>)
      requires IsTail(pool0, pool) && pool != []
      ensures IsTail(pool0, pool[1..])
    {
    }

    /** Maps a block, adding the index blocks it needs: ext4_fs_set_inode_data_block_index. If they
        cannot be had, what has been added stays, and maps nothing. */
    method Set(iblock: nat, fblock: nat) returns (err: Err)
      requires Valid()
      modifies this`direct, this`indirect, this`tables, this`pool
      ensures Valid() && (err == EIO <==> iblock >= Limit(p, 3))
      ensures err == ENOSPC <==> DIRECT <= iblock < Limit(p, 3) && old(Wanted(iblock)) > |old(pool)|
      ensures err == EOK && iblock >= DIRECT ==>
                |pool| == |old(pool)| - old(Wanted(iblock)) && IsTail(old(pool), pool)
      ensures err == ENOSPC ==> pool == []
      ensures err == EIO || iblock < DIRECT ==>
                indirect == old(indirect) && tables == old(tables) && pool == old(pool)
      ensures err == EOK ==>
              forall y :: 0 <= y < Limit(p, 3) ==> Block(y) == if y == iblock then fblock else old(Block(y))
      ensures err != EOK ==> forall y :: 0 <= y < Limit(p, 3) ==> Block(y) == old(Block(y))
    {
      hide MapOk, Node, Parent, Entry, Child, Above, Rest, IsIndex, Pos, Put, Zeros, MapsAs, BlockAt, Limit, Missing,
          LevelOf, IsTail, Per;
      DirectBelow(p);
      TailAll(pool);
      if iblock < DIRECT {
        DirectSet(direct, indirect, tables, p, iblock, fblock);
        direct := direct[iblock := fblock];
        return EOK;
      }
      var l := FindLevel(iblock);
      LevelBelow(p, iblock);
      if l == 0 {
        return EIO;
      }
      LevelRange(p, iblock);
      ghost var r, off := l, iblock - Limit(p, l - 1);
      TopOf(p, off, r);
      RootNode(indirect, tables, p, r);
      NothingMoved(indirect, tables, p, r);
      MissingNext(indirect, tables, p, r, off, r);
      var blkOff := iblock - Limit(p, l - 1);
      var current := indirect[l - 1];
      var offInBlk := Above(p, blkOff, l - 1);
      if current == 0 {
        if pool == [] {
          BlocksSame(direct, indirect, tables, indirect, tables, p);
          return ENOSPC;
        }
        TailNext(old(pool), pool);
        var newBlk := NewTable();
        RootStep(old(indirect), old(tables), p, r, newBlk);
        indirect := indirect[..l - 1] + [newBlk] + indirect[l..];
        current := newBlk;
      }
      while l > 0
        invariant 0 <= l <= r && Valid() && direct == old(direct)
        invariant IsTail(old(pool), pool)
        invariant l > 0 ==> current != 0 && current == Node(indirect, tables, p, r, r - l, Above(p, off, l))
        invariant l > 0 ==> blkOff == Rest(p, off, l) && offInBlk == Above(p, blkOff, l - 1)
        invariant l > 0 ==> |old(pool)| - |pool| + Missing(indirect, tables, p, r, off, l) == old(Wanted(iblock))
        invariant l == 0 ==> |old(pool)| - |pool| == old(Wanted(iblock))
        invariant MapsAs(old(indirect), old(tables), indirect, tables, p, if l == 0 then r else 0, off, fblock)
      {
        GoDown(indirect, tables, p, r, off, l);
        MissingNext(indirect, tables, p, r, off, l);
        var next := tables[current][offInBlk];
        if l > 1 && next == 0 {
          MissingNext(indirect, tables, p, r, off, l - 1);
          if pool == [] {
            MappedSame(direct, old(indirect), old(tables), indirect, tables, p, off, fblock);
            return ENOSPC;
          }
          TailNext(old(pool), pool);
          next := LinkTable(current, offInBlk, r, off, l, old(indirect), old(tables), fblock);
        }
        if l == 1 {
          DataStep(old(indirect), old(tables), indirect, tables, p, r, off, fblock);
          tables := Put(tables, current, offInBlk, fblock);
        }
        current := next;
        l := l - 1;
        if l == 0 {
          break;
        }
        StepDown(p, off, l + 1);
        blkOff := Rest(p, blkOff, l);
        offInBlk := Above(p, blkOff, l - 1);
      }
      Mapped(direct, old(indirect), old(tables), indirect, tables, p, iblock, fblock);
      return EOK;
    }

    /** Unmaps a block and gives it back: ext4_fs_release_inode_block. Index blocks stay. */
    method Release(iblock: nat) returns (err: Err, freed: nat)
      requires Valid()
      modifies this`direct, this`tables
      ensures Valid() && err == (if iblock >= Limit(p, 3) then EIO else EOK)
      ensures freed == if err == EOK then old(Block(iblock)) else 0
      ensures forall y :: 0 <= y < Limit(p, 3) ==> Block(y) == if y == iblock then 0 else old(Block(y))
    {
      hide MapOk, Node, Parent, Entry, Child, Above, Rest, IsIndex, Pos, Put, MapsAs, BlockAt, Limit;
      DirectBelow(p);
      freed := 0;
      if iblock < DIRECT {
        DirectSet(direct, indirect, tables, p, iblock, 0);
        freed := direct[iblock];
        if freed == 0 {
          assert direct[iblock := 0] == direct;
          return EOK, 0;
        }
        direct := direct[iblock := 0];
        return EOK, freed;
      }
      var level := FindLevel(iblock);
      LevelBelow(p, iblock);
      if level == 0 {
        return EIO, 0;
      }
      LevelRange(p, iblock);
      ghost var r, off := level, iblock - Limit(p, level - 1);
      TopOf(p, off, r);
      RootNode(indirect, tables, p, r);
      BlockIs(direct, indirect, tables, p, iblock);
      NothingMoved(indirect, tables, p, r);
      var blkOff := iblock - Limit(p, level - 1);
      var current := indirect[level - 1];
      var offInBlk := Above(p, blkOff, level - 1);
      while level > 0
        invariant 0 <= level <= r && Valid() && direct == old(direct)
        invariant level > 0 ==>
                  tables == old(tables) && current == Node(indirect, tables, p, r, r - level, Above(p, off, level))
        invariant level > 0 ==> blkOff == Rest(p, off, level) && offInBlk == Above(p, blkOff, level - 1)
        invariant level == 0 ==>
                  current == Node(old(indirect), old(tables), p, r, r, off)
                  && MapsAs(indirect, old(tables), indirect, tables, p, r, off, 0)
      {
        if current == 0 {
          AllZero(indirect, tables, p, r, off, level);
          MappedZero(direct, indirect, tables, p, iblock);
          return EOK, 0;
        }
        GoDown(indirect, tables, p, r, off, level);
        var t := current;
        current := tables[t][offInBlk];
        if level == 1 {
          DataStep(indirect, tables, indirect, tables, p, r, off, 0);
          tables := Put(tables, t, offInBlk, 0);
        }
        level := level - 1;
        if level == 0 {
          break;
        }
        StepDown(p, off, level + 1);
        blkOff := Rest(p, blkOff, level);
        offInBlk := Above(p, blkOff, level - 1);
      }
      Mapped(direct, indirect, old(tables), indirect, tables, p, iblock, 0);
      return EOK, current;
    }
  }

  /** The data blocks are where they were, but for the one at offset off of level r; r = 0 stands for
      no exception. */
  ghost predicate MapsAs(ind: seq<nat>, tables: map<nat, seq<nat>>, ind': seq<nat>, tables': map<nat, seq<nat>>, p: nat,
          r: nat, off: nat, v: nat)
    requires p > 0 && |ind| == |ind'| == 3
  {
    forall l: nat, q: nat {:trigger Node(ind', tables', p, l, l, q)} :: 1 <= l <= 3 && Pos(p, l, q) ==>
      Node(ind', tables', p, l, l, q) == if l == r && q == off then v else Node(ind, tables, p, l, l, q)
  }

  lemma {:induction false} NothingMoved(ind: seq<nat>, tables: map<nat, seq<nat>>, p: nat, r: nat)
    requires p > 0 && |ind| == 3
    ensures forall off, v :: MapsAs(ind, tables, ind, tables, p, 0, off, v)
  {
  }

  lemma {:induction false} RootStep(ind: seq<nat>, tables: map<nat, seq<nat>>, p: nat, r: nat, nb: nat)
    requires p > 0 && |ind| == 3 && MapOk(ind, tables, p) && 1 <= r <= 3 && ind[r - 1] == 0 && nb !in tables && nb != 0
    ensures var ind' := ind[..r - 1] + [nb] + ind[r..]; var tables' := tables[nb := Zeros(p)];
            && |ind'| == 3 && MapOk(ind', tables', p) && Node(ind', tables', p, r, 0, 0) == nb
            && (forall off, v :: MapsAs(ind, tables, ind', tables', p, 0, off, v))
            && forall off: nat :: off < Per(p, r) ==>
                 Missing(ind', tables', p, r, off, r) == Missing(ind, tables, p, r, off, r) - 1
  {
    hide MapOk, Zeros, Missing, Per, Node;
    RootLinked(ind, tables, p, r, nb);
    var ind', tables' := ind[..r - 1] + [nb] + ind[r..], tables[nb := Zeros(p)];
    RootNode(ind, tables, p, r);
    RootNode(ind', tables', p, r);
    forall off: nat | off < Per(p, r)
      ensures Missing(ind', tables', p, r, off, r) == Missing(ind, tables, p, r, off, r) - 1
    {
      TopOf(p, off, r);
      AbovePositions(p, off, r);
      MissingSame(ind, tables, ind', tables', p, r, off, r - 1);
      MissingNext(ind, tables, p, r, off, r);
      MissingNext(ind', tables', p, r, off, r);
    }
  }

  /** Index blocks that are missing on the way to the data block, from l levels above it on down. */
  function Missing(ind: seq<nat>, tables: map<nat, seq<nat>>, p: nat, r: nat, off: nat, l: nat): nat
    requires p > 0 && 1 <= r <= |ind| && l <= r
  {
    if l == 0 then 0
    else (if Node(ind, tables, p, r, r - l, Above(p, off, l)) == 0 then 1 else 0)
         + Missing(ind, tables, p, r, off, l - 1)
  }

  lemma {:induction false} MissingNext(ind: seq<nat>, tables: map<nat, seq<nat>>, p: nat, r: nat, off: nat, l: nat)
    requires p > 0 && 1 <= r <= |ind| && 0 < l <= r
    ensures Missing(ind, tables, p, r, off, l) ==
            (if Node(ind, tables, p, r, r - l, Above(p, off, l)) == 0 then 1 else 0)
                + Missing(ind, tables, p, r, off, l - 1)
    ensures Missing(ind, tables, p, r, off, 0) == 0
  {
  }

  lemma {:induction false} AbovePositions(p: nat, off: nat, r: nat)
    requires p > 0 && r > 0 && off < Per(p, r)
    ensures forall k {:trigger Above(p, off, k)} :: 0 <= k <= r ==> Pos(p, r - k, Above(p, off, k))
  {
    forall k | 0 <= k <= r
      ensures Pos(p, r - k, Above(p, off, k))
    {
      AbovePos(p, off, r, r - k);
    }
  }

  lemma {:induction false} MissingSame(ind: seq<nat>, tables: map<nat, seq<nat>>, ind': seq<nat>,
          tables': map<nat, seq<nat>>, p: nat, r: nat, off: nat, l: nat)
    requires p > 0 && |ind| == |ind'| == 3 && 1 <= r <= 3 && l <= r
    requires forall k {:trigger Above(p, off, k)} :: 1 <= k <= l ==>
               Node(ind', tables', p, r, r - k, Above(p, off, k)) == Node(ind, tables, p, r, r - k, Above(p, off, k))
    ensures Missing(ind', tables', p, r, off, l) == Missing(ind, tables, p, r, off, l)
  {
    hide Node, Above;
    if l > 0 {
      MissingSame(ind, tables, ind', tables', p, r, off, l - 1);
      assert Node(ind', tables', p, r, r - l, Above(p, off, l)) == Node(ind, tables, p, r, r - l, Above(p, off, l));
    }
  }

  lemma {:induction false} TableStep(ind0: seq<nat>, tables0: map<nat, seq<nat>>, ind: seq<nat>,
          tables: map<nat, seq<nat>>, p: nat, r: nat, off: nat, l: nat, nb: nat, v: nat)
    requires p > 0 && |ind0| == |ind| == 3 && MapOk(ind, tables, p) && 1 < l <= r <= 3 && off < Per(p, r)
             && nb !in tables && nb != 0
    requires MapsAs(ind0, tables0, ind, tables, p, 0, off, v)
    requires Node(ind, tables, p, r, r - l, Above(p, off, l)) != 0
             && Node(ind, tables, p, r, r - l + 1, Above(p, off, l - 1)) == 0
    ensures var t, i := Node(ind, tables, p, r, r - l, Above(p, off, l)), Above(p, Rest(p, off, l), l - 1);
            && t in tables && i < |tables[t]| && t != nb
            && var tables' := Put(tables[nb := Zeros(p)], t, i, nb);
            && MapOk(ind, tables', p) && tables'.Keys == tables.Keys + {nb}
            && Node(ind, tables', p, r, r - l + 1, Above(p, off, l - 1)) == nb
            && MapsAs(ind0, tables0, ind, tables', p, 0, off, v)
            && Missing(ind, tables', p, r, off, l - 1) == Missing(ind, tables, p, r, off, l - 1) - 1
  {
    hide MapOk, Parent, Entry, Child, Above, Rest, IsIndex, Zeros, Put, Missing, Per;
    GoDown(ind, tables, p, r, off, l);
    AbovePos(p, off, r, r - l + 1);
    AbovePositions(p, off, r);
    TableLinked(ind, tables, p, r, r - l, Above(p, off, l), Above(p, Rest(p, off, l), l - 1), nb);
    hide Node, Pos;
    assert tables[nb := Zeros(p)].Keys == tables.Keys + {nb};
    var tables' := Put(tables[nb := Zeros(p)], Node(ind, tables, p, r, r - l, Above(p, off, l)),
            Above(p, Rest(p, off, l), l - 1), nb);
    MissingSame(ind, tables, ind, tables', p, r, off, l - 2);
    MissingNext(ind, tables, p, r, off, l - 1);
    MissingNext(ind, tables', p, r, off, l - 1);
  }

  lemma {:induction false} DataStep(ind0: seq<nat>, tables0: map<nat, seq<nat>>, ind: seq<nat>,
          tables: map<nat, seq<nat>>, p: nat, r: nat, off: nat, v: nat)
    requires p > 0 && |ind0| == |ind| == 3 && MapOk(ind, tables, p) && 1 <= r <= 3 && off < Per(p, r)
    requires MapsAs(ind0, tables0, ind, tables, p, 0, off, v)
    requires Node(ind, tables, p, r, r - 1, Above(p, off, 1)) != 0
    ensures var t, i := Node(ind, tables, p, r, r - 1, Above(p, off, 1)), Above(p, Rest(p, off, 1), 0);
            && t in tables && i < |tables[t]|
            && var tables' := Put(tables, t, i, v);
            && MapOk(ind, tables', p) && tables'.Keys == tables.Keys
            && Node(ind, tables, p, r, r, off) == tables[t][i]
            && MapsAs(ind0, tables0, ind, tables', p, r, off, v)
  {
    hide MapOk, Parent, Entry, Child, Above, Rest, IsIndex, Put;
    GoDown(ind, tables, p, r, off, 1);
    TopOf(p, off, r);
    DataPut(ind, tables, p, r, Above(p, off, 1), Above(p, Rest(p, off, 1), 0), v);
  }

  lemma {:induction false} LevelRange(p: nat, iblock: nat)
    ensures LevelOf(p, iblock) > 0 && iblock >= DIRECT ==>
            var l := LevelOf(p, iblock); Limit(p, l - 1) <= iblock < Limit(p, l - 1) + Per(p, l)
  {
  }

  lemma {:induction false} DirectSet(direct: seq<nat>, ind: seq<nat>, tables: map<nat, seq<nat>>, p: nat, iblock: nat,
          v: nat)
    requires p > 0 && |direct| == DIRECT && |ind| == 3 && iblock < DIRECT
    ensures forall y :: 0 <= y < Limit(p, 3) ==>
              BlockAt(direct[iblock := v], ind, tables, p, y) == if y == iblock then v
              else BlockAt(direct, ind, tables, p, y)
    ensures BlockAt(direct, ind, tables, p, iblock) == direct[iblock]
  {
    hide Node, LevelOf, Limit;
    forall y | 0 <= y < Limit(p, 3)
      ensures BlockAt(direct[iblock := v], ind, tables, p, y) == if y == iblock then v
              else BlockAt(direct, ind, tables, p, y)
    {
    }
  }

  lemma {:induction false} BlockIs(direct: seq<nat>, ind: seq<nat>, tables: map<nat, seq<nat>>, p: nat, iblock: nat)
    requires p > 0 && |direct| == DIRECT && |ind| == 3 && iblock >= DIRECT && LevelOf(p, iblock) > 0
    ensures var l := LevelOf(p, iblock);
            BlockAt(direct, ind, tables, p, iblock) == Node(ind, tables, p, l, l, iblock - Limit(p, l - 1))
    ensures var l := LevelOf(p, iblock); Pos(p, l, iblock - Limit(p, l - 1))
  {
    var l := LevelOf(p, iblock);
    PosBelow(p, l, iblock - Limit(p, l - 1));
  }

  /** What the nodes say about the blocks of the file. */
  lemma {:induction false} Mapped(direct: seq<nat>, ind: seq<nat>, tables: map<nat, seq<nat>>, ind': seq<nat>,
          tables': map<nat, seq<nat>>, p: nat, iblock: nat, v: nat)
    requires p > 0 && |direct| == DIRECT && |ind| == |ind'| == 3 && iblock >= DIRECT && LevelOf(p, iblock) > 0
    requires MapsAs(ind, tables, ind', tables', p, LevelOf(p, iblock), iblock - Limit(p, LevelOf(p, iblock) - 1), v)
    ensures forall y :: 0 <= y < Limit(p, 3) ==>
              BlockAt(direct, ind', tables', p, y) == if y == iblock then v else BlockAt(direct, ind, tables, p, y)
  {
    forall y | 0 <= y < Limit(p, 3)
      ensures BlockAt(direct, ind', tables', p, y) == if y == iblock then v else BlockAt(direct, ind, tables, p, y)
    {
      if y >= DIRECT {
        hide BlockAt, Node, LevelOf, Limit, Pos;
        LevelBelow(p, y);
        BlockIs(direct, ind, tables, p, y);
        BlockIs(direct, ind', tables', p, y);
      }
    }
  }

  lemma {:induction false} MappedSame(direct: seq<nat>, ind: seq<nat>, tables: map<nat, seq<nat>>, ind': seq<nat>,
          tables': map<nat, seq<nat>>, p: nat, off: nat, v: nat)
    requires p > 0 && |direct| == DIRECT && |ind| == |ind'| == 3 && MapsAs(ind, tables, ind', tables', p, 0, off, v)
    ensures forall y :: 0 <= y < Limit(p, 3) ==>
              BlockAt(direct, ind', tables', p, y) == BlockAt(direct, ind, tables, p, y)
  {
    forall y | 0 <= y < Limit(p, 3)
      ensures BlockAt(direct, ind', tables', p, y) == BlockAt(direct, ind, tables, p, y)
    {
      if y >= DIRECT {
        hide BlockAt, Node, LevelOf, Limit, Pos;
        LevelBelow(p, y);
        BlockIs(direct, ind, tables, p, y);
        BlockIs(direct, ind', tables', p, y);
      }
    }
  }

  lemma {:induction false} BlocksSame(direct: seq<nat>, ind: seq<nat>, tables: map<nat, seq<nat>>, ind': seq<nat>,
          tables': map<nat, seq<nat>>, p: nat)
    requires p > 0 && |direct| == DIRECT && |ind| == 3 && ind' == ind && tables' == tables
    ensures forall y :: 0 <= y < Limit(p, 3) ==>
              BlockAt(direct, ind', tables', p, y) == BlockAt(direct, ind, tables, p, y)
  {
  }

  /** A block that is not mapped is mapped to 0 already. */
  lemma {:induction false} MappedZero(direct: seq<nat>, ind: seq<nat>, tables: map<nat, seq<nat>>, p: nat, iblock: nat)
    requires p > 0 && |direct| == DIRECT && |ind| == 3 && iblock >= DIRECT && LevelOf(p, iblock) > 0
    requires var l := LevelOf(p, iblock); Node(ind, tables, p, l, l, iblock - Limit(p, l - 1)) == 0
    ensures BlockAt(direct, ind, tables, p, iblock) == 0
  {
  }

  lemma {:induction false} DirectBelow(p: nat)
    ensures Limit(p, 3) >= Limit(p, 2) >= Limit(p, 1) >= DIRECT
  {
  }

  lemma {:induction false} LevelBelow(p: nat, iblock: nat)
    ensures LevelOf(p, iblock) > 0 <==> iblock < Limit(p, 3)
  {
    DirectBelow(p);
  }

  lemma {:induction false} RootNode(ind: seq<nat>, tables: map<nat, seq<nat>>, p: nat, r: nat)
    requires p > 0 && 1 <= r <= |ind| == 3
    ensures Node(ind, tables, p, r, 0, 0) == ind[r - 1]
  {
  }

  /** The index block at some level of the way, and the entry that leads on. */
  lemma {:induction false} GoDown(ind: seq<nat>, tables: map<nat, seq<nat>>, p: nat, r: nat, off: nat, l: nat)
    requires p > 0 && |ind| == 3 && MapOk(ind, tables, p) && 1 <= l <= r <= 3 && off < Per(p, r)
    requires Node(ind, tables, p, r, r - l, Above(p, off, l)) != 0
    ensures var t, i := Node(ind, tables, p, r, r - l, Above(p, off, l)), Above(p, Rest(p, off, l), l - 1);
            && t in tables && |tables[t]| == p && i < p
            && Node(ind, tables, p, r, r - l + 1, Above(p, off, l - 1)) == tables[t][i]
            && IsIndex(ind, tables, p, r, r - l, Above(p, off, l))
            && Above(p, off, l - 1) == Child(p, Above(p, off, l), i)
  {
    hide MapOk, Parent, Entry, Child, Above, Rest, Pos;
    AbovePos(p, off, r, r - l);
    IndexIs(ind, tables, p, r, r - l, Above(p, off, l));
    TableIn(ind, tables, p, r, r - l, Above(p, off, l));
    StepDown(p, off, l);
    ChildOf(p, Above(p, off, l), Above(p, Rest(p, off, l), l - 1));
  }

  /** No block behind an entry that is 0. */
  lemma {:induction false} AllZero(ind: seq<nat>, tables: map<nat, seq<nat>>, p: nat, r: nat, off: nat, l: nat)
    requires p > 0 && |ind| == 3 && MapOk(ind, tables, p) && 1 <= r <= 3 && l <= r && off < Per(p, r)
    requires Node(ind, tables, p, r, r - l, Above(p, off, l)) == 0
    ensures Node(ind, tables, p, r, r, off) == 0
    decreases l
  {
    hide MapOk, Parent, Entry, Child, Above;
    TopOf(p, off, r);
    ZeroNot(ind, tables, p);
    if l > 0 {
      StepDown(p, off, l);
      AllZero(ind, tables, p, r, off, l - 1);
    }
  }
}
