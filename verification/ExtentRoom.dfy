/** Making room for one more extent: what ext4_ext_insert_extent knows before it tries again. */
module ExtentRoom {
  import opened ExtentEntries
  import opened ExtentTree
  import opened ExtentPath
  import opened ExtentSearch
  import opened ExtentLeaf
  import opened ExtentHeld
  import opened ExtentInsert
  import opened ExtentGrow
  import opened ExtentSplitRun
  import opened ExtentSplitDone

  /** A search path ends in a leaf the new extent can be put into. */
  lemma {:induction false} LeafReady(m: map<nat, Node>, t: Tree, cap: nat, path: seq<PathEnt>, x: Entry)
    requires Held(m, t, cap) && Found(t, path, 0, x.first) && IsExtent(x) && Apart(x, Flat(t))
    ensures Ready(m, t, cap, path, x)
    ensures forall j :: 0 <= j < |path| ==>
              m[path[j].blk].max == MaxOf(path[j].blk, cap) && |m[path[j].blk].entries| <= m[path[j].blk].max
    ensures forall j :: 0 < j < |path| ==> path[j].blk != 0
    ensures path[0].blk == 0
    ensures var n := m[path[|path| - 1].blk]; var cur := path[|path| - 1].pos;
            && AtPos(n.entries, cur, x.first) && Extents(n.entries)
            && (cur >= 0 ==> x.first != n.entries[cur].first)
  {
    FoundOnPath(t, path, 0, x.first);
    PathWalkable(m, t, m[0].depth, cap, path);
    forall j | 0 <= j < |path|
      ensures m[path[j].blk].max == MaxOf(path[j].blk, cap) && |m[path[j].blk].entries| <= m[path[j].blk].max
    {
      PathNode(m, t, m[0].depth, cap, path, 0, j);
    }
    forall j | 0 < j < |path|
      ensures path[j].blk != 0
    {
      PathDistinct(t, path, 0, 0, j);
    }
    var d := |path| - 1;
    SubFacts(m, t, cap, path, x.first, d);
    ApartLeaf(t, path, x, SubAt(t, path, 0, d), path[d].pos);
  }

  /** The node at level j of the path is full, and the path goes through one of its entries. */
  ghost predicate FullAt(m: map<nat, Node>, cap: nat, path: seq<PathEnt>, j: nat)
    requires j < |path|
  {
    path[j].blk in m && |m[path[j].blk].entries| == cap && 0 <= path[j].pos < cap
  }

  /** What cutting level i needs of the path and the free blocks. */
  lemma {:induction false} CutFacts(m0: map<nat, Node>, t: Tree, cap: nat, path: seq<PathEnt>, i: nat, x: Entry,
          pool: seq<nat>, m: map<nat, Node>)
    requires Ready(m0, t, cap, path, x) && i < |path| && FullAt(m0, cap, path, i)
    requires PoolFresh(pool, m) && pool != []
    ensures Walkable(m0, path) && |m0[path[i].blk].entries| == cap && 0 <= path[i].pos < cap
    ensures pool[0] != 0 && pool[0] !in m && PoolFresh(pool[1..], m) && pool[0] !in pool[1..]
  {
    hide Held, OnPath, Found, Apart, IsExtent, Flat;
  }

  /** Where the leaf is cut. */
  lemma {:induction false} SplitStart(m: map<nat, Node>, t: Tree, cap: nat, path: seq<PathEnt>, x: Entry)
    requires Ready(m, t, cap, path, x) && path != [] && FullAt(m, cap, path, |path| - 1)
    ensures Walkable(m, path) && x.Extent? && path[|path| - 1].blk in m
    ensures var es := m[path[|path| - 1].blk].entries; var cur := path[|path| - 1].pos;
            && 0 <= cur < |es| == cap
            && SplitPoint(es, cur, cap, x, if cur + 1 < cap then [] else [x],
                          if cur + 1 < cap then es[cur + 1].first else x.first)
  {
    hide Held, OnPath, Found, Apart, Flat;
  }

  lemma {:induction false} SplitSize(m0: map<nat, Node>, m: map<nat, Node>, cap: nat, path: seq<PathEnt>, i: int,
          x: Entry, xs: seq<Entry>, kid: Tree, lt: Tree, rt: Tree, news: seq<nat>, ins: nat)
    requires SplitState(m0, m, cap, path, i, x, xs, kid, lt, rt, news, ins)
    ensures |news| == |path| - 1 - i
  {
    hide CutInv, CutStored, OnPath, Chain, LeafAfterCut;
  }

  lemma {:induction false} PoolLess(pool: seq<nat>, m: map<nat, Node>, m': map<nat, Node>)
    requires PoolFresh(pool, m) && m'.Keys <= m.Keys
    ensures PoolFresh(pool, m')
  {
  }

  lemma {:induction false} PoolNext(pool: seq<nat>, m: map<nat, Node>, m': map<nat, Node>, nb: nat)
    requires PoolFresh(pool, m) && nb !in pool && forall b :: b in m' ==> b in m || b == nb
    ensures PoolFresh(pool, m')
  {
  }

  lemma {:induction false} FullLevels(m: map<nat, Node>, t: Tree, cap: nat, path: seq<PathEnt>, x: Entry, i: nat)
    requires Held(m, t, cap) && Found(t, path, 0, x.first) && IsExtent(x) && Apart(x, Flat(t)) && i < |path|
    requires forall j :: i < j < |path| ==> path[j].blk in m && |m[path[j].blk].entries| == m[path[j].blk].max
    ensures forall j :: i < j < |path| ==> FullAt(m, cap, path, j)
    ensures path[i].blk in m
    ensures i < |path| - 1 ==> var n := m[path[i].blk]; 0 <= path[i].pos < |n.entries| <= n.max
  {
    hide Found, Apart, Stored, Shape, Sorted;
    LeafReady(m, t, cap, path, x);
  }

  /** The search path in the grown tree has the old path's nodes from level 2 on. */
  lemma {:induction false} GrownFull(m: map<nat, Node>, m': map<nat, Node>, t: Tree, cap: nat, path: seq<PathEnt>,
          path': seq<PathEnt>, x: Entry, nb: nat)
    requires Ready(m, t, cap, path, x) && t.es != []
    requires nb != 0 && nb !in m
    requires m' == m[nb := Node(m[0].entries, cap, m[0].depth)]
                    [0 := Node([Index(m[0].entries[0].first, nb)], ROOT_MAX, m[0].depth + 1)]
    requires Held(m', Grown(t, nb), cap) && Found(Grown(t, nb), path', 0, x.first)
    requires path[0].blk == 0
    ensures |path'| == |path| + 1 && path' == GrownPath(path, nb)
    ensures forall j :: 2 <= j < |path'| ==> path'[j] == path[j - 1] && m'[path'[j].blk] == m[path[j - 1].blk]
    ensures path'[1].blk in m' && m'[path'[1].blk] == Node(m[0].entries, cap, m[0].depth)
  {
    hide Stored, Apart, View;
    FoundGrown(t, path, x.first, nb);
    FoundUnique(Grown(t, nb), path', GrownPath(path, nb), 0, x.first);
    assert path' == GrownPath(path, nb);
    forall j | 2 <= j < |path'|
      ensures m'[path'[j].blk] == m[path[j - 1].blk]
    {
      assert path[j - 1].blk != 0 by {
        assert path[0].blk != path[j - 1].blk;
      }
    }
  }

  /** After a split that leaves x on the left the old leaf has room. */
  lemma {:induction false} LeafRoom(m0: map<nat, Node>, m: map<nat, Node>, t0: Tree, t: Tree, cap: nat,
          path: seq<PathEnt>, at: nat, x: Entry, news: seq<nat>)
    requires Ready(m0, t0, cap, path, x) && SplitHeld(m0, t0, m, t, cap, path, at, [], news)
    requires SplitLeft(m0, t0, m, t, cap, path, x)
    ensures Held(m, t, cap) && Found(t, path, 0, x.first)
    ensures path[|path| - 1].blk in m
    ensures var n := m[path[|path| - 1].blk]; |n.entries| < n.max
  {
    hide Stored, Shape, Sorted, Apart, View, Chain, NoLeak, Count;
    LeafReady(m, t, cap, path, x);
  }

  /** The path over the new right halves: what ext4_ext_replace_path leaves. */
  function RightPath(path: seq<PathEnt>, at: nat, news: seq<nat>): seq<PathEnt>
    requires 0 < at < |path| && |news| == |path| - at
  {
    seq(|path|, j requires 0 <= j < |path| =>
      if j < at - 1 then path[j]
      else if j == at - 1 then PathEnt(path[j].blk, path[j].pos + 1)
      else PathEnt(news[|path| - 1 - j], if j == |path| - 1 then -1 else 0))
  }

  /** The path ends in an empty new leaf, and the keys that lead straight to it are x's already. */
  ghost predicate RoomRight(m: map<nat, Node>, path: seq<PathEnt>, cap: nat, x: Entry, at: nat) {
    && Walkable(m, path) && 0 < at < |path|
    && m[path[|path| - 1].blk] == Node([], cap, 0) && path[|path| - 1].pos == -1
    && path[at - 1].pos > 0
    && (forall j :: at <= j < |path| - 1 ==> path[j].pos == 0)
    && (forall j :: at - 1 <= j < |path| - 1 ==> m[path[j].blk].entries[path[j].pos].first == x.first)
  }

  lemma {:induction false} RightRoom(m0: map<nat, Node>, m: map<nat, Node>, t0: Tree, t: Tree, cap: nat,
          path: seq<PathEnt>, at: nat, x: Entry, news: seq<nat>, q: seq<PathEnt>)
    requires Walkable(m0, path) && SplitHeld(m0, t0, m, t, cap, path, at, [x], news)
    requires SplitRight(m0, t0, m, t, cap, path, at, x, news)
    requires q == RightPath(path, at, news)
    ensures RoomRight(m, q, cap, x, at)
  {
    hide Held, View, Flat, NoLeak, Filled, RangeMap;
    var d := |path| - 1;
    forall j | 0 <= j < |q|
      ensures q[j].blk in m
      ensures j < |q| - 1 ==> 0 <= q[j].pos < |m[q[j].blk].entries| && m[q[j].blk].entries[q[j].pos].Index?
    {
      if j >= at {
        assert q[j].blk == news[d - j] && news[d - j] in news;
        if j < d {
          assert m[news[d - j]].entries[0] == Index(x.first, news[d - j - 1]);
        }
      } else if j < at - 1 {
        assert q[j] == path[j];
      }
    }
    forall j | at <= j < d
      ensures m[q[j].blk].entries[q[j].pos].first == x.first
    {
      assert m[news[d - j]].entries[0] == Index(x.first, news[d - j - 1]);
    }
    forall i, j | 0 <= i < j < |q|
      ensures q[i].blk != q[j].blk
    {
      if j >= at {
        assert news[d - j] in news;
        if i >= at {
          assert news[d - j] != news[d - i];
        } else {
          assert path[i].blk in m0;
        }
      } else {
        assert path[i].blk != path[j].blk;
      }
    }
  }

  /** Inserting into the empty new leaf fills it with x and changes nothing else. */
  lemma {:induction false} FillRight(m: map<nat, Node>, m': map<nat, Node>, path: seq<PathEnt>, cap: nat, x: Entry,
          at: nat, news: seq<nat>)
    requires RoomRight(m, path, cap, x, at) && IsExtent(x) && news != [] && news[0] == path[|path| - 1].blk
    requires LeafStep(m, m', path, [x], true)
    ensures m' == Filled(m, news, [x], cap)
  {
    hide IsExtent;
    var d := |path| - 1;
    var m1 := m[path[d].blk := m[path[d].blk].(entries := [x])];
    forall j | 0 <= j < d
      ensures m'[path[j].blk] == m1[path[j].blk]
    {
      if j < at - 1 {
        assert !AllZero(path, j + 1, d) by {
          assert path[at - 1].pos != 0;
        }
      } else {
        var n := m1[path[j].blk];
        assert KeyTo(n, path[j].pos, x.first).entries == n.entries;
      }
    }
    forall b | b in m1
      ensures m'[b] == m1[b]
    {
      if j :| 0 <= j < d && path[j].blk == b {
      }
    }
  }

  /** A leaf that has to be split is not one x would be put before. */
  lemma {:induction false} SplitNotMisplaced(m: map<nat, Node>, t: Tree, cap: nat, path: seq<PathEnt>, x: Entry,
          noCombine: bool, n: Node)
    requires Ready(m, t, cap, path, x) && n == m[path[|path| - 1].blk] && -1 <= path[|path| - 1].pos < |n.entries|
    requires ActionFor(n.entries, path[|path| - 1].pos, n.max, x, noCombine).Split?
    ensures !Misplaced(Flat(t), x, noCombine)
  {
    hide Apart, View, Stored;
    var d := |path| - 1;
    SubFacts(m, t, cap, path, x.first, d);
    var leaf := SubAt(t, path, 0, d);
    StoredNode(m, leaf, 0, cap);
    SearchBefore(t, path, 0, x.first);
    FlatPath(t, path, 0, d);
    AftEmpty(t, path, 0, x.first);
    NotMisplaced(Bef(t, path, 0, d), leaf.es, Aft(t, path, 0, d), path[d].pos, x, noCombine);
  }

  /** The leaf at the end of the search path has to be split exactly if it is full and x can be merged with no
      extent of the file, or must not. */
  lemma {:induction false} SplitExact(m: map<nat, Node>, t: Tree, cap: nat, path: seq<PathEnt>, x: Entry,
          noCombine: bool, n: Node)
    requires Ready(m, t, cap, path, x) && n == m[path[|path| - 1].blk] && -1 <= path[|path| - 1].pos < |n.entries|
    ensures ActionFor(n.entries, path[|path| - 1].pos, n.max, x, noCombine).Split? <==>
            |n.entries| == n.max && (noCombine || !Merges(Flat(t), x))
  {
    hide Apart, View, Stored, Merges, Grows;
    var d := |path| - 1;
    SubFacts(m, t, cap, path, x.first, d);
    var leaf := SubAt(t, path, 0, d);
    StoredNode(m, leaf, 0, cap);
    SearchAfter(t, path, 0, x.first);
    SearchBefore(t, path, 0, x.first);
    FlatPath(t, path, 0, d);
    AftEmpty(t, path, 0, x.first);
    ActionGrows(Bef(t, path, 0, d), leaf.es, Aft(t, path, 0, d), path[d].pos, n.max, x, noCombine, Flat(t));
  }

  lemma {:induction false} InsertedPlain(f: seq<Entry>, x: Entry, noCombine: bool)
    requires x.Extent? && !Misplaced(f, x, noCombine)
    ensures Inserted(f, x, noCombine) == View(f) + RangeMap(x)
  {
  }

  /** One try at the end of the search path: x is in, or the leaf is full. */
  lemma {:induction false} OldLeafDone(m: map<nat, Node>, m': map<nat, Node>, t: Tree, cap: nat, path: seq<PathEnt>,
          x: Entry, noCombine: bool, err: Err, needSplit: bool)
    returns (t': Tree)
    requires Held(m, t, cap) && Found(t, path, 0, x.first) && IsExtent(x) && Apart(x, Flat(t))
    requires Ready(m, t, cap, path, x)
    requires var n := m[path[|path| - 1].blk]; Extents(n.entries) && AtPos(n.entries, path[|path| - 1].pos, x.first)
    requires LeafOutcome(m, m', path, x, noCombine, err, needSplit)
    ensures needSplit ==>
              && err == EIO && m' == m && t' == t && !Misplaced(Flat(t), x, noCombine)
              && var n := m[path[|path| - 1].blk]; |n.entries| == n.max
    ensures !needSplit ==>
              && err == EOK && m'.Keys == m.Keys && Held(m', t', cap)
              && View(Flat(t')) == Inserted(Flat(t), x, noCombine) && (NoLeak(m, t) ==> NoLeak(m', t'))
              && Grows(Flat(t), Flat(t'), x, noCombine)
  {
    hide Stored, Shape, Sorted, Apart, View, Count, NoLeak, Found, Grows;
    LeafReady(m, t, cap, path, x);
    var d := |path| - 1;
    var n := m[path[d].blk];
    var a := ActionFor(n.entries, path[d].pos, n.max, x, noCombine);
    if needSplit {
      SplitNotMisplaced(m, t, cap, path, x, noCombine, n);
      return t;
    }
    var es := After(n.entries, path[d].pos, x, a);
    LeafDone(m, m', t, cap, path, x, noCombine, n, a, es);
    t' := Put(t, path, 0, d, Leaf(path[d].blk, es), FixFor(path[d].pos, a));
  }

  /** The second try at the new leaf: x is in. */
  lemma {:induction false} NewLeafDone(m: map<nat, Node>, m': map<nat, Node>, path: seq<PathEnt>, cap: nat, x: Entry,
          noCombine: bool, at: nat, news: seq<nat>, f: seq<Entry>, err: Err, needSplit: bool)
    requires RoomRight(m, path, cap, x, at) && IsExtent(x) && news != [] && news[0] == path[|path| - 1].blk && cap > 0
    requires LeafOutcome(m, m', path, x, noCombine, err, needSplit)
    requires !Misplaced(f, x, noCombine)
    ensures !needSplit && err == EOK && m' == Filled(m, news, [x], cap)
    ensures Inserted(f, x, noCombine) == View(f) + RangeMap(x)
  {
    hide View, RangeMap;
    assert After([], -1, x, Add(0)) == [x];
    FillRight(m, m', path, cap, x, at, news);
    InsertedPlain(f, x, noCombine);
  }
}
