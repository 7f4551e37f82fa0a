/** An insertion that runs out of metadata blocks: what is lost, what is kept, and what nobody owns
    any more. */
module ExtentAbort {
  import opened ExtentEntries
  import opened ExtentTree
  import opened ExtentPath
  import opened ExtentLeaf
  import opened ExtentHeld
  import opened ExtentInsert
  import opened ExtentGrow
  import opened ExtentSplitRun
  import opened ExtentSplitDone

  /** The leaf at the end of the path has to be split, as ext4_ext_insert_leaf sees it. */
  predicate SplitFor(m: map<nat, Node>, path: seq<PathEnt>, x: Entry, noCombine: bool)
    requires path != [] && path[|path| - 1].blk in m
    requires -1 <= path[|path| - 1].pos < |m[path[|path| - 1].blk].entries|
  {
    var n := m[path[|path| - 1].blk];
    ActionFor(n.entries, path[|path| - 1].pos, n.max, x, noCombine).Split?
  }

  lemma {:induction false} OutcomeSplit(m: map<nat, Node>, m': map<nat, Node>, path: seq<PathEnt>, x: Entry,
          noCombine: bool, err: Err, needSplit: bool)
    requires Walkable(m, path) && IsExtent(x)
    requires var n := m[path[|path| - 1].blk]; var cur := path[|path| - 1].pos;
             Extents(n.entries) && -1 <= cur < |n.entries| && (cur >= 0 ==> x.first != n.entries[cur].first)
    requires LeafOutcome(m, m', path, x, noCombine, err, needSplit)
    ensures needSplit <==> SplitFor(m, path, x, noCombine)
  {
  }

  /** The path leads through the blocks to an entry of a leaf, or to no entry of an empty one. */
  ghost predicate SearchEnds(m: map<nat, Node>, path: seq<PathEnt>) {
    && path != [] && (forall j :: 0 <= j < |path| ==> path[j].blk in m)
    && -1 <= path[|path| - 1].pos < |m[path[|path| - 1].blk].entries|
  }

  lemma {:induction false} SearchEnd(m: map<nat, Node>, t: Tree, cap: nat, path: seq<PathEnt>, b: nat)
    requires Held(m, t, cap) && Found(t, path, 0, b)
    ensures SearchEnds(m, path)
  {
    FoundOnPath(t, path, 0, b);
    PathWalkable(m, t, m[0].depth, cap, path);
    SubFacts(m, t, cap, path, b, |path| - 1);
  }

  /** How many of the first n nodes of the path are full, from the lowest up to the first with room:
      the number of blocks it takes to make room. */
  function Fulls(m: map<nat, Node>, path: seq<PathEnt>, n: nat): (f: nat)
    requires n <= |path| && forall j :: 0 <= j < |path| ==> path[j].blk in m
    ensures f <= n
  {
    if n > 0 && |m[path[n - 1].blk].entries| == m[path[n - 1].blk].max then 1 + Fulls(m, path, n - 1) else 0
  }

  lemma {:induction false} FullsAre(m: map<nat, Node>, path: seq<PathEnt>, n: nat, a: int)
    requires n <= |path| && forall j :: 0 <= j < |path| ==> path[j].blk in m
    requires -1 <= a < n && (forall j :: a < j < n ==> |m[path[j].blk].entries| == m[path[j].blk].max)
    requires a >= 0 ==> |m[path[a].blk].entries| != m[path[a].blk].max
    ensures Fulls(m, path, n) == n - 1 - a
  {
    if n - 1 > a {
      FullsAre(m, path, n - 1, a);
    }
  }

  /** Every node on the path is full, and there is a block to put the root's content into. */
  predicate Grew(m: map<nat, Node>, path: seq<PathEnt>, pool: seq<nat>)
    requires forall j :: 0 <= j < |path| ==> path[j].blk in m
  {
    Fulls(m, path, |path|) == |path| && pool != []
  }

  /** The highest level that was cut before the allocator failed. */
  function CutFrom(m: map<nat, Node>, path: seq<PathEnt>, pool: seq<nat>): (i: nat)
    requires (forall j :: 0 <= j < |path| ==> path[j].blk in m) && |pool| < Fulls(m, path, |path|)
    ensures 0 < i <= |path|
  {
    |path| - |pool| + if Grew(m, path, pool) then 1 else 0
  }

  /** The insertion has to make room: the leaf at the end of the path is full, and x cannot be merged with any
      extent of the file, or must not. */
  ghost predicate MustSplit(m: map<nat, Node>, f: seq<Entry>, path: seq<PathEnt>, x: Entry, noCombine: bool)
    requires path != [] && path[|path| - 1].blk in m
  {
    var n := m[path[|path| - 1].blk];
    |n.entries| == n.max && (noCombine || !Merges(f, x))
  }

  /** Inserting x takes more blocks than there are. */
  ghost predicate TooFew(m: map<nat, Node>, f: seq<Entry>, path: seq<PathEnt>, x: Entry, noCombine: bool,
          pool: seq<nat>)
  {
    SearchEnds(m, path) && MustSplit(m, f, path, x, noCombine) && |pool| < Fulls(m, path, |path|)
  }

  /** Blocks that go back to the allocator. */
  function Returned(m: map<nat, Node>, path: seq<PathEnt>, pool: seq<nat>): seq<nat>
    requires forall j :: 0 <= j < |path| ==> path[j].blk in m
  {
    if Grew(m, path, pool) then pool[1..] else pool
  }

  /** The pool was too small. The levels it was enough for have been cut, and what was right of the path
      there is no longer in the tree; its blocks stay allocated. */
  ghost predicate Aborted(m: map<nat, Node>, t: Tree, path: seq<PathEnt>, pool: seq<nat>, m': map<nat, Node>, t': Tree)
  {
    && OnPath(t, path, 0) && (forall j :: 0 <= j < |path| ==> path[j].blk in m) && |pool| < Fulls(m, path, |path|)
    && var i, grew := CutFrom(m, path, pool), Grew(m, path, pool);
       && Flat(t') == Kept(t, path, i)
       && (forall c ::
             Count(t', c) + CountAll(LooseAt(t, path, i), c) == Count(t, c) + if grew && c == pool[0] then 1 else 0)
       && m'.Keys == (if grew then m.Keys + {pool[0]} else m.Keys)
       && (pool == [] ==> m' == m && t' == t)
  }

  /** The path stands on the last entry of every node from level i on. */
  predicate LastFrom(m: map<nat, Node>, path: seq<PathEnt>, i: nat)
    requires forall j :: 0 <= j < |path| ==> path[j].blk in m
  {
    forall j :: i <= j < |path| ==> path[j].pos + 1 == |m[path[j].blk].entries|
  }

  lemma {:induction false} LastFromNext(m: map<nat, Node>, path: seq<PathEnt>, i: nat)
    requires (forall j :: 0 <= j < |path| ==> path[j].blk in m) && i < |path|
    ensures LastFrom(m, path, i) <==> path[i].pos + 1 == |m[path[i].blk].entries| && LastFrom(m, path, i + 1)
  {
  }

  /** Nothing is right of the path exactly if it stands on the last entries. */
  lemma {:induction false} BackNone(m: map<nat, Node>, sub: Tree, h: nat, cap: nat, path: seq<PathEnt>, i: nat, b: nat)
    requires Stored(m, sub, h, cap) && Shape(sub) && Found(sub, path, i, b) && OnPath(sub, path, i)
    requires forall j :: 0 <= j < |path| ==> path[j].blk in m
    ensures Back(sub, path, i, []) == [] <==> LastFrom(m, path, i)
    decreases sub
  {
    LastFromNext(m, path, i);
    var p := path[i].pos;
    if sub.Leaf? {
      if 0 <= p < |sub.es| {
        assert Back(sub, path, i, []) == sub.es[p + 1..];
      }
    } else {
      BackNone(m, sub.kids[p], h - 1, cap, path, i + 1, b);
      if p + 1 < |sub.kids| {
        FlatAllFirst(sub, p + 1, |sub.kids|);
        assert sub.kids[p + 1..|sub.kids|] == sub.kids[p + 1..];
      } else {
        assert sub.kids[p + 1..] == [];
      }
    }
  }

  /** An abort loses exactly the mappings of what lies right of the path below the highest cut, so
      none if and only if the path stands on the last entry of every node that was cut. The blocks of
      the dropped subtrees, and only these, stay allocated without belonging to the tree. */
  lemma {:induction false} AbortLoss(m: map<nat, Node>, t: Tree, cap: nat, path: seq<PathEnt>, b: nat, pool: seq<nat>,
                                     m': map<nat, Node>, t': Tree)
    requires Held(m, t, cap) && Found(t, path, 0, b) && Aborted(m, t, path, pool, m', t')
    ensures var i := CutFrom(m, path, pool);
            && View(Flat(t')) == View(Flat(t)) - View(LostAt(t, path, i)).Keys
            && (View(Flat(t')) == View(Flat(t)) <==> LastFrom(m, path, i))
            && (NoLeak(m, t) && (Grew(m, path, pool) ==> pool[0] !in m) ==>
                  forall c :: c in m' ==> (Count(t', c) == 0 <==> CountAll(LooseAt(t, path, i), c) > 0))
  {
    AbortViews(m, t, cap, path, b, pool, m', t');
    AbortLeak(m, t, cap, path, pool, m', t');
  }

  lemma {:induction false} AbortLeak(m: map<nat, Node>, t: Tree, cap: nat, path: seq<PathEnt>, pool: seq<nat>,
                                     m': map<nat, Node>, t': Tree)
    requires Held(m, t, cap) && Aborted(m, t, path, pool, m', t')
    ensures NoLeak(m, t) && (Grew(m, path, pool) ==> pool[0] !in m) ==>
              forall c :: c in m' ==> (Count(t', c) == 0 <==> CountAll(LooseAt(t, path, CutFrom(m, path, pool)), c) > 0)
  {
    hide View, Stored, Shape, Flat, Sorted, Count, CountAll, LooseAt, Kept, Fulls, OnPath, CutFrom;
    assert forall c :: Count(t, c) <= if c in m then 1 else 0;
  }

  lemma {:induction false} AbortViews(m: map<nat, Node>, t: Tree, cap: nat, path: seq<PathEnt>, b: nat, pool: seq<nat>,
                                      m': map<nat, Node>, t': Tree)
    requires Held(m, t, cap) && Found(t, path, 0, b) && Aborted(m, t, path, pool, m', t')
    ensures var i := CutFrom(m, path, pool);
            && View(Flat(t')) == View(Flat(t)) - View(LostAt(t, path, i)).Keys
            && (View(Flat(t')) == View(Flat(t)) <==> LastFrom(m, path, i))
  {
    assert View([]) == map[];
    hide View, Stored, Shape, Found, Flat, Sorted, Count, CountAll, Fulls, Grew;
    var i := CutFrom(m, path, pool);
    if i < |path| {
      AbortParts(m, t, cap, path, b, i);
      var sub := SubAt(t, path, 0, i);
      ViewDrop(Bef(t, path, 0, i) + Front(sub, path, i), Back(sub, path, i, []), Aft(t, path, 0, i), Flat(t));
    }
  }

  lemma {:induction false} AbortParts(m: map<nat, Node>, t: Tree, cap: nat, path: seq<PathEnt>, b: nat, i: nat)
    requires Held(m, t, cap) && Found(t, path, 0, b) && OnPath(t, path, 0) && 0 < i < |path|
    requires forall j :: 0 <= j < |path| ==> path[j].blk in m
    ensures var sub := SubAt(t, path, 0, i);
            && OnPath(sub, path, i)
            && Flat(t) == (Bef(t, path, 0, i) + Front(sub, path, i)) + Back(sub, path, i, []) + Aft(t, path, 0, i)
            && Sorted(Flat(t)) && (Back(sub, path, i, []) == [] <==> LastFrom(m, path, i))
  {
    SubFacts(m, t, cap, path, b, i);
    FoundSub(t, path, 0, i, b);
    var sub := SubAt(t, path, 0, i);
    FlatPath(t, path, 0, i);
    FrontBackAll(sub, path, i);
    Around3(Bef(t, path, 0, i), Front(sub, path, i), Back(sub, path, i, []), Aft(t, path, 0, i));
    BackNone(m, sub, m[0].depth - i, cap, path, i, b);
  }

  // ---- the split in a tree that has just grown ----

  /** The same nodes on a path one step longer. */
  lemma {:induction false} LongerPath(t: Tree, p: seq<PathEnt>, q: seq<PathEnt>, k: nat, i: nat)
    requires OnPath(t, p, k) && k <= i < |p| && |q| == |p| + 1 && forall j :: k <= j < |p| ==> q[j + 1] == p[j]
    ensures OnPath(t, q, k + 1) && SubAt(t, q, k + 1, i + 1) == SubAt(t, p, k, i)
    ensures Bef(t, q, k + 1, i + 1) == Bef(t, p, k, i) && Aft(t, q, k + 1, i + 1) == Aft(t, p, k, i)
    decreases t
  {
    LongerOn(t, p, q, k);
    if i > k {
      LongerPath(t.kids[p[k].pos], p, q, k + 1, i);
    }
  }

  lemma {:induction false} LongerOn(t: Tree, p: seq<PathEnt>, q: seq<PathEnt>, k: nat)
    requires OnPath(t, p, k) && |q| == |p| + 1 && forall j :: k <= j < |p| ==> q[j + 1] == p[j]
    ensures OnPath(t, q, k + 1) && Front(t, q, k + 1) == Front(t, p, k) && Loose(t, q, k + 1) == Loose(t, p, k)
    decreases t
  {
    if t.Inner? {
      LongerOn(t.kids[p[k].pos], p, q, k + 1);
    }
  }

  /** Giving a split up after the tree has grown does to the extents and blocks what it would have done
      to the tree before. */
  lemma {:induction false} GrownKept(t: Tree, path: seq<PathEnt>, nb: nat, i: nat)
    requires OnPath(t, path, 0) && 0 < i <= |path| && t.es != []
    ensures var g, q := Grown(t, nb), GrownPath(path, nb);
            OnPath(g, q, 0) && Kept(g, q, i + 1) == Kept(t, path, i) && LooseAt(g, q, i + 1) == LooseAt(t, path, i)
  {
    var g, q := Grown(t, nb), GrownPath(path, nb);
    GrownFlat(t, nb);
    GrownOn(t, path, nb);
    if i < |path| {
      var p := path[0].pos;
      var kid, k := t.kids[p], Moved(t, nb);
      assert forall j :: 1 <= j < |path| ==> q[j + 1] == path[j];
      LongerPath(kid, path, q, 1, i);
      LongerOn(kid, path, q, 1);
      SubOnPath(kid, path, 1, i);
      SubOnPath(g, q, 0, i + 1);
      assert SubAt(g, q, 0, i + 1) == SubAt(k, q, 1, i + 1) == SubAt(kid, q, 2, i + 1);
      assert SubAt(t, path, 0, i) == SubAt(kid, path, 1, i);
      LongerOn(SubAt(kid, path, 1, i), path, q, i);
      GrownAround(t, path, nb, i);
    }
  }

  lemma {:induction false} GrownOn(t: Tree, path: seq<PathEnt>, nb: nat)
    requires OnPath(t, path, 0) && t.es != []
    ensures OnPath(Grown(t, nb), GrownPath(path, nb), 0) && OnPath(Moved(t, nb), GrownPath(path, nb), 1)
  {
    var q, k := GrownPath(path, nb), Moved(t, nb);
    assert q[0] == PathEnt(0, 0) && q[1] == PathEnt(nb, path[0].pos);
    assert forall j :: 1 <= j < |path| ==> q[j + 1] == path[j];
    if t.Inner? {
      LongerOn(t.kids[path[0].pos], path, q, 1);
    }
  }

  lemma {:induction false} GrownAround(t: Tree, path: seq<PathEnt>, nb: nat, i: nat)
    requires OnPath(t, path, 0) && 0 < i < |path| && t.es != []
    ensures var g, q := Grown(t, nb), GrownPath(path, nb);
            OnPath(g, q, 0) && Bef(g, q, 0, i + 1) == Bef(t, path, 0, i) && Aft(g, q, 0, i + 1) == Aft(t, path, 0, i)
  {
    var g, q, k := Grown(t, nb), GrownPath(path, nb), Moved(t, nb);
    GrownOn(t, path, nb);
    assert forall j :: 1 <= j < |path| ==> q[j + 1] == path[j];
    LongerPath(t.kids[path[0].pos], path, q, 1, i);
    assert [k][..0] == [] && [k][1..] == [] && g.kids == [k];
    assert q[0] == PathEnt(0, 0) && q[1].pos == path[0].pos && k.kids == t.kids;
    assert Bef(g, q, 0, i + 1) == FlatAll(g.kids[..0]) + Bef(k, q, 1, i + 1);
    assert Aft(g, q, 0, i + 1) == Aft(k, q, 1, i + 1) + FlatAll(g.kids[1..]);
    assert Bef(g, q, 0, i + 1) == Bef(k, q, 1, i + 1) && Aft(g, q, 0, i + 1) == Aft(k, q, 1, i + 1);
  }

  /** There was no block at all, and nothing has changed. */
  lemma {:induction false} NotGrown(m: map<nat, Node>, t: Tree, path: seq<PathEnt>)
    requires OnPath(t, path, 0) && (forall j :: 0 <= j < |path| ==> path[j].blk in m) && 0 < Fulls(m, path, |path|)
    ensures Aborted(m, t, path, [], m, t)
  {
  }

  /** The split was given up in the tree as it was. */
  lemma {:induction false} AbortedPlain(m: map<nat, Node>, t: Tree, path: seq<PathEnt>, pool: seq<nat>,
          m': map<nat, Node>, t': Tree)
    requires OnPath(t, path, 0) && (forall j :: 0 <= j < |path| ==> path[j].blk in m)
    requires |pool| < Fulls(m, path, |path|) && !Grew(m, path, pool) && GivenUp(m, t, path, |path| - |pool|, m', t')
    ensures Aborted(m, t, path, pool, m', t')
  {
  }

  /** The split was given up in the tree that had grown before. */
  lemma {:induction false} AbortedGrown(m: map<nat, Node>, t: Tree, path: seq<PathEnt>, pool: seq<nat>,
          m1: map<nat, Node>, m': map<nat, Node>, t': Tree)
    requires OnPath(t, path, 0) && (forall j :: 0 <= j < |path| ==> path[j].blk in m) && t.es != [] && t.blk == 0
    requires |pool| < Fulls(m, path, |path|) && Grew(m, path, pool) && m1.Keys == m.Keys + {pool[0]}
    requires OnPath(Grown(t, pool[0]), GrownPath(path, pool[0]), 0)
    requires GivenUp(m1, Grown(t, pool[0]), GrownPath(path, pool[0]), |path| + 1 - (|pool| - 1), m', t')
    ensures Aborted(m, t, path, pool, m', t')
  {
    var i := CutFrom(m, path, pool);
    GrownKept(t, path, pool[0], i);
    hide Kept, LooseAt, Flat, OnPath, Grown, GrownPath, Fulls;
    forall c
      ensures Count(t', c) + CountAll(LooseAt(t, path, i), c) == Count(t, c) + if c == pool[0] then 1 else 0
    {
      GrownCount(t, pool[0], c);
    }
  }

  // ---- an example ----

  function One(k: nat): Entry {
    Extent(k, 1, 100 + k)
  }

  function FullLeaf(): seq<Entry> {
    [One(0), One(2), One(4), One(6), One(8)]
  }

  /** Nodes of five entries: a full leaf with blocks 0, 2, 4, 6 and 8 beside four small ones, under a full
      node. */
  ghost function Crowded(): Tree {
    Inner(0, [Index(0, 1)], [Inner(1, [Index(0, 2), Index(10, 3), Index(20, 4), Index(30, 5), Index(40, 6)],
                                   [Leaf(2, FullLeaf()), Leaf(3, [One(10)]), Leaf(4, [One(20)]),
                                    Leaf(5, [One(30)]), Leaf(6, [One(40)])])])
  }

  function CrowdedNodes(): map<nat, Node> {
    map[0 := Node([Index(0, 1)], ROOT_MAX, 2),
        1 := Node([Index(0, 2), Index(10, 3), Index(20, 4), Index(30, 5), Index(40, 6)], 5, 1),
        2 := Node(FullLeaf(), 5, 0), 3 := Node([One(10)], 5, 0), 4 := Node([One(20)], 5, 0),
        5 := Node([One(30)], 5, 0), 6 := Node([One(40)], 5, 0)]
  }

  function CrowdedPath(): seq<PathEnt> {
    [PathEnt(0, 0), PathEnt(1, 0), PathEnt(2, 1)]
  }

  lemma {:induction false} CrowdedFlat()
    ensures Flat(Crowded()) == [One(0), One(2), One(4), One(6), One(8), One(10), One(20), One(30), One(40)]
  {
    var mid := Crowded().kids[0];
    var k := mid.kids;
    assert FlatAll([mid]) == Flat(mid) + FlatAll([]);
    assert FlatAll(k[5..]) == [];
    assert k[4..][1..] == k[5..] && k[3..][1..] == k[4..] && k[2..][1..] == k[3..] && k[1..][1..] == k[2..];
    assert FlatAll(k[4..]) == [One(40)] + FlatAll(k[5..]);
    assert FlatAll(k[3..]) == [One(30)] + FlatAll(k[4..]);
    assert FlatAll(k[2..]) == [One(20)] + FlatAll(k[3..]);
    assert FlatAll(k[1..]) == [One(10)] + FlatAll(k[2..]);
    assert FlatAll(k) == FullLeaf() + FlatAll(k[1..]);
  }

  lemma {:induction false} CrowdedCount(c: nat)
    ensures Count(Crowded(), c) == if c <= 6 then 1 else 0
  {
    var mid := Crowded().kids[0];
    var k := mid.kids;
    assert CountAll([mid], c) == Count(mid, c) + CountAll([], c);
    assert CountAll(k[5..], c) == 0;
    assert k[4..][1..] == k[5..] && k[3..][1..] == k[4..] && k[2..][1..] == k[3..] && k[1..][1..] == k[2..];
    assert CountAll(k[4..], c) == Count(k[4], c) + CountAll(k[5..], c);
    assert CountAll(k[3..], c) == Count(k[3], c) + CountAll(k[4..], c);
    assert CountAll(k[2..], c) == Count(k[2], c) + CountAll(k[3..], c);
    assert CountAll(k[1..], c) == Count(k[1], c) + CountAll(k[2..], c);
    assert CountAll(k, c) == Count(k[0], c) + CountAll(k[1..], c);
  }

  lemma {:induction false} CrowdedStored()
    ensures Stored(CrowdedNodes(), Crowded(), 2, 5)
  {
    var t, m := Crowded(), CrowdedNodes();
    var mid := t.kids[0];
    forall i | 0 <= i < |mid.kids|
      ensures Stored(m, mid.kids[i], 0, 5)
    {
    }
    assert Stored(m, mid, 1, 5);
  }

  lemma {:induction false} CrowdedShape()
    ensures Shape(Crowded())
  {
    var t := Crowded();
    var mid := t.kids[0];
    CrowdedFlat();
    assert FlatAll([mid]) == Flat(mid) + FlatAll([]) == Flat(mid);
    forall i | 0 <= i < |mid.kids|
      ensures mid.es[i].Index? && mid.es[i].leaf == mid.kids[i].blk && Shape(mid.kids[i]) && Flat(mid.kids[i]) != []
      ensures KeyOk(i, mid.es[i].first, Flat(mid.kids[i])[0])
    {
    }
    assert Shape(mid);
  }

  lemma {:induction false} StepUp(f: seq<Entry>, i: nat, j: nat)
    requires Extents(f) && i < j < |f| && forall k :: 0 <= k < |f| - 1 ==> End(f[k]) <= f[k + 1].first
    ensures End(f[i]) <= f[j].first
  {
    if i + 1 < j {
      StepUp(f, i, j - 1);
      assert IsExtent(f[j - 1]);
    }
  }

  lemma {:induction false} CrowdedSorted()
    ensures Sorted(Flat(Crowded()))
  {
    CrowdedFlat();
    var f := [One(0), One(2), One(4), One(6), One(8), One(10), One(20), One(30), One(40)];
    assert Extents(f) && forall k :: 0 <= k < |f| - 1 ==> End(f[k]) <= f[k + 1].first;
    hide One, Crowded, Flat;
    forall i, j | 0 <= i < j < |f|
      ensures End(f[i]) <= f[j].first
    {
      StepUp(f, i, j);
    }
  }

  lemma {:induction false} CrowdedHeld()
    ensures Held(CrowdedNodes(), Crowded(), 5)
  {
    CrowdedStored();
    CrowdedShape();
    var t, m := Crowded(), CrowdedNodes();
    assert m[0].depth == 2 && t.blk == 0;
    assert forall c :: c in m <==> c in {0, 1, 2, 3, 4, 5, 6};
    CrowdedSorted();
    hide Crowded, CrowdedNodes, Stored, Shape, Sorted, Count, Flat;
    forall c: nat
      ensures Count(t, c) <= if c in m then 1 else 0
    {
      CrowdedCount(c);
    }
  }

  lemma {:induction false} CrowdedAlone()
    ensures !Merges(Flat(Crowded()), Extent(3, 1, 500))
  {
    hide Crowded, Flat;
    CrowdedFlat();
  }

  lemma {:induction false} CrowdedFull()
    ensures var m, path := CrowdedNodes(), CrowdedPath();
            && (forall j :: 0 <= j < |path| ==> path[j].blk in m)
            && TooFew(m, Flat(Crowded()), path, Extent(3, 1, 500), false, [7])
            && CutFrom(m, path, [7]) == 2 && !LastFrom(m, path, 2)
  {
    var m, path := CrowdedNodes(), CrowdedPath();
    CrowdedAlone();
    FullsAre(m, path, 3, 0);
    assert path[2].pos + 1 != |m[path[2].blk].entries|;
  }

  lemma {:induction false} CrowdedSearch()
    ensures Found(Crowded(), CrowdedPath(), 0, 3) && OnPath(Crowded(), CrowdedPath(), 0)
    ensures LostAt(Crowded(), CrowdedPath(), 2) == [One(4), One(6), One(8)]
  {
    var t, path := Crowded(), CrowdedPath();
    var leaf := t.kids[0].kids[0];
    assert Found(leaf, path, 2, 3) && OnPath(leaf, path, 2);
    assert Found(t.kids[0], path, 1, 3) && OnPath(t.kids[0], path, 1);
    assert SubAt(t, path, 0, 2) == SubAt(t.kids[0], path, 1, 2) == SubAt(leaf, path, 2, 2) == leaf;
    assert Back(leaf, path, 2, []) == [] + leaf.es[2..];
  }

  lemma {:induction false} CrowdedMaps()
    ensures 4 in View(Flat(Crowded())) && 4 in View([One(4), One(6), One(8)])
    ensures Apart(Extent(3, 1, 500), Flat(Crowded())) && IsExtent(Extent(3, 1, 500))
  {
    hide Crowded, Flat, View;
    CrowdedFlat();
    var f, g := [One(0), One(2), One(4), One(6), One(8), One(10), One(20), One(30), One(40)], [One(4), One(6), One(8)];
    assert f[2] == One(4) && Covers(One(4), 4) && g[0] == One(4);
    ViewDomain(f, 4);
    ViewDomain(g, 4);
  }

  /** Block 3 is to be inserted with one free metadata block, which is enough for the leaf but not for
      the node above it. Blocks 4, 6 and 8 of the file are lost. */
  lemma {:induction false} LossAfterCut(m': map<nat, Node>, t': Tree)
    requires Aborted(CrowdedNodes(), Crowded(), CrowdedPath(), [7], m', t')
    ensures Held(CrowdedNodes(), Crowded(), 5) && Found(Crowded(), CrowdedPath(), 0, 3)
    ensures IsExtent(Extent(3, 1, 500)) && Apart(Extent(3, 1, 500), Flat(Crowded()))
    ensures 4 in View(Flat(Crowded())) && 4 !in View(Flat(t')) && View(Flat(t')) != View(Flat(Crowded()))
    ensures TooFew(CrowdedNodes(), Flat(Crowded()), CrowdedPath(), Extent(3, 1, 500), false, [7])
  {
    hide *;
    CrowdedHeld();
    CrowdedSearch();
    CrowdedFull();
    CrowdedMaps();
    AbortLoss(CrowdedNodes(), Crowded(), 5, CrowdedPath(), 3, [7], m', t');
  }
}
