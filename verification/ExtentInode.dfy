/** The extent tree of an inode, updated in place: lwext4/src/ext4_extent.c. */
module ExtentInode {
  import opened ExtentEntries
  import opened ExtentTree
  import opened ExtentPath
  import opened ExtentSearch
  import opened ExtentLeaf
  import opened ExtentHeld
  import opened ExtentInsert
  import opened ExtentGrow
  import opened ExtentSplit
  import opened ExtentSplitRun
  import opened ExtentSplitDone
  import opened ExtentRoom
  import opened ExtentAbort
  import opened ExtentCut
  import opened ExtentZip
  import opened ExtentWalk
  import opened ExtentTrim

  /** Position of the last entry not after b, or the first entry:
      ext4_ext_binsearch_idx and ext4_ext_binsearch, which differ only in the entry type. */
  method BinSearch(es: seq<Entry>, b: nat) returns (pos: int)
    requires KeysUp(es)
    ensures AtPos(es, pos, b)
  {
    if |es| == 0 {
      return -1;
    }
    var l, r := 1, |es| - 1;
    while l <= r
      invariant 1 <= l <= |es| && 0 <= r < |es| && l <= r + 1
      invariant l == 1 || es[l - 1].first <= b
      invariant r + 1 < |es| ==> b < es[r + 1].first
    {
      var m := l + (r - l) / 2;
      if b < es[m].first {
        r := m - 1;
      } else {
        l := m + 1;
      }
    }
    pos := l - 1;
  }

  class Inode {
    /** Node contents by block; block 0 is the root in the inode. */
    var nodes: map<nat, Node>
    /** Metadata blocks the allocator will return next; empty when the disk is full. */
    var pool: seq<nat>
    /** Metadata blocks given back to the allocator, in order. */
    var freed: seq<nat>
    /** Runs of data blocks given back, in order, with the file blocks they held. */
    var lost: seq<Entry>
    /** Entries an on-disk node can hold. */
    const cap: nat
    /** The tree the blocks hold. */
    ghost var tree: Tree

    ghost predicate Valid()
      reads this
    {
      Held(nodes, tree, cap) && PoolFresh(pool, nodes)
    }

    /** The logical to physical map of the file. */
    ghost function Map(): map<nat, nat>
      reads this
    {
      View(Flat(tree))
    }

    /** An empty file: ext4_extent_tree_init. */
    constructor (cap: nat, pool: seq<nat>)
      requires cap > ROOT_MAX && PoolFresh(pool, map[0 := Node([], ROOT_MAX, 0)])
      ensures Valid() && Map() == map[] && NoLeak(nodes, tree) && freed == [] && lost == []
      ensures this.cap == cap && this.pool == pool
    {
      this.cap, this.pool, freed, lost := cap, pool, [], [];
      nodes := map[0 := Node([], ROOT_MAX, 0)];
      tree := Leaf(0, []);
    }

    /** Walks from the root to the leaf for block b: ext4_find_extent. */
    method FindExtent(b: nat) returns (path: seq<PathEnt>)
      requires Valid()
      ensures Found(tree, path, 0, b)
      ensures |path| == nodes[0].depth + 1
    {
      var i := nodes[0].depth;
      var blk := 0;
      ghost var cur := tree;
      path := [];
      while i > 0
        invariant 0 <= i && |path| + i == nodes[0].depth
        invariant Descent(tree, path, 0, b, cur)
        invariant blk == cur.blk && Stored(nodes, cur, i, cap) && Shape(cur) && Sorted(Flat(cur))
      {
        KeysSorted(cur);
        var pos := BinSearch(nodes[blk].entries, b);
        DescentStep(tree, path, 0, b, cur, PathEnt(blk, pos));
        SortedKid(cur, pos);
        path := path + [PathEnt(blk, pos)];
        cur := cur.kids[pos];
        blk := nodes[blk].entries[pos].leaf;
        i := i - 1;
      }
      KeysSorted(cur);
      var pos := BinSearch(nodes[blk].entries, b);
      DescentDone(tree, path, 0, b, cur, PathEnt(blk, pos));
      path := path + [PathEnt(blk, pos)];
    }

    /** The leaf's first extent changed: sets the keys that lead straight to it
        (ext4_ext_correct_indexes). pos is the leaf position that was modified. */
    method CorrectIndexes(path: seq<PathEnt>, pos: nat)
      requires Walkable(nodes, path) && nodes[path[|path| - 1].blk].entries != []
      modifies this`nodes
      ensures nodes == RekeyAll(old(nodes), path, |path| - 1, pos, old(nodes)[path[|path| - 1].blk].entries[0].first)
    {
      var depth := |path| - 1;
      if depth == 0 || pos != 0 {
        return;
      }
      var border := nodes[path[depth].blk].entries[0].first;
      var k := depth;
      while k > 0 && (k == depth || path[k].pos == 0)
        invariant 0 <= k <= depth && Upward(nodes, path, k)
        invariant RekeyAll(nodes, path, k, if k == depth then pos else path[k].pos, border) ==
                  RekeyAll(old(nodes), path, depth, pos, border)
      {
        k := k - 1;
        nodes := nodes[path[k].blk := KeyTo(nodes[path[k].blk], path[k].pos, border)];
      }
    }

    /** Adds x to the leaf at the end of the path, merging it with the extent found there if
        possible: ext4_ext_insert_leaf. A full leaf is left alone and reported. */
    method InsertLeaf(path: seq<PathEnt>, x: Entry, noCombine: bool) returns (err: Err, needSplit: bool)
      requires Walkable(nodes, path) && IsExtent(x)
      requires var n := nodes[path[|path| - 1].blk]; var cur := path[|path| - 1].pos;
               Extents(n.entries) && -1 <= cur < |n.entries| && (cur == -1 <==> n.entries == []) && |n.entries| <= n.max
      modifies this`nodes
      ensures LeafOutcome(old(nodes), nodes, path, x, noCombine, err, needSplit)
      ensures var n := old(nodes)[path[|path| - 1].blk]; var cur := path[|path| - 1].pos;
              needSplit <==>
                && |n.entries| == n.max
                && (cur >= 0 ==>
                      && x.first != n.entries[cur].first
                      && (noCombine || !(Joins(n.entries[cur], x) || Joins(x, n.entries[cur]))))
    {
      hide RekeyAll, Extents, KeysSet;
      var depth := |path| - 1;
      var blk, cur := path[depth].blk, path[depth].pos;
      KeysKept(nodes, path);
      var eh := nodes[blk];
      var es := eh.entries;
      if cur >= 0 && x.first == es[cur].first {
        return EIO, false;
      }
      if !noCombine {
        if cur >= 0 && CanAppend(es[cur], x) {
          nodes := nodes[blk := eh.(entries := es[cur := es[cur].(len := es[cur].len + x.len)])];
          return EOK, false;
        }
        if cur >= 0 && CanPrepend(es[cur], x) {
          nodes := nodes[blk := eh.(entries := es[cur := es[cur].(first := x.first, len := es[cur].len + x.len)])];
          return EOK, false;
        }
      }
      if |es| == eh.max {
        return EIO, true;
      }
      var ex: nat;
      if cur < 0 {
        ex := 0;
      } else if x.first > es[cur].first {
        ex := cur + 1;
      } else {
        ex := cur;
      }
      nodes := nodes[blk := eh.(entries := es[..ex] + [x] + es[ex..])];
      WalkableLeaf(old(nodes), path, es[..ex] + [x] + es[ex..]);
      RekeyKeysSet(nodes, path, if cur < 0 then 0 else cur, nodes[blk].entries[0].first);
      CorrectIndexes(path, if cur < 0 then 0 else cur);
      return EOK, false;
    }

    /** Moves the root's content into a new block and leaves a root with one index to it:
        ext4_ext_grow_indepth. */
    method GrowInDepth() returns (err: Err)
      requires Valid() && nodes[0].entries != []
      modifies this`nodes, this`pool, this`tree
      ensures Valid()
      ensures err == if old(pool) == [] then ENOSPC else EOK
      ensures err == ENOSPC ==> nodes == old(nodes) && tree == old(tree) && pool == old(pool)
      ensures err == EOK ==>
                && pool == old(pool)[1..]
                && tree == Grown(old(tree), old(pool)[0])
                && nodes == old(nodes)[old(pool)[0] := Node(old(nodes)[0].entries, cap, old(nodes)[0].depth)]
                                      [0 := Node([Index(old(nodes)[0].entries[0].first, old(pool)[0])], ROOT_MAX,
                                           old(nodes)[0].depth + 1)]
                && (old(NoLeak(nodes, tree)) ==> NoLeak(nodes, tree))
    {
      if |pool| == 0 {
        return ENOSPC;
      }
      var newblock := pool[0];
      pool := pool[1..];
      var root := nodes[0];
      GrownHeld(nodes, nodes[newblock := Node(root.entries, cap, root.depth)]
                            [0 := Node([Index(root.entries[0].first, newblock)], ROOT_MAX, root.depth + 1)],
                tree, cap, newblock);
      nodes := nodes[newblock := Node(root.entries, cap, root.depth)];
      nodes := nodes[0 := Node([Index(root.entries[0].first, newblock)], ROOT_MAX, root.depth + 1)];
      tree := Grown(tree, newblock);
      return EOK;
    }

    /** Links child under key next to the index found in the node: ext4_ext_insert_index. */
    method InsertIndex(e: PathEnt, key: nat, child: nat) returns (err: Err, ix: nat)
      requires e.blk in nodes && -1 <= e.pos < |nodes[e.blk].entries| <= nodes[e.blk].max
      modifies this`nodes
      ensures var n := old(nodes)[e.blk];
              if (e.pos >= 0 && n.entries[e.pos].first == key) || |n.entries| == n.max then
                err == EIO && nodes == old(nodes)
              else
                && err == EOK
                && ix == (if e.pos < 0 then 0 else if key > n.entries[e.pos].first then e.pos + 1 else e.pos)
                && nodes == old(nodes)[e.blk := n.(entries := n.entries[..ix] + [Index(key, child)] + n.entries[ix..])]
    {
      ix := 0;
      var eh := nodes[e.blk];
      if e.pos >= 0 && key == eh.entries[e.pos].first {
        return EIO, 0;
      }
      if |eh.entries| == eh.max {
        return EIO, 0;
      }
      if e.pos < 0 {
        ix := 0;
      } else if key > eh.entries[e.pos].first {
        ix := e.pos + 1;
      } else {
        ix := e.pos;
      }
      nodes := nodes[e.blk := eh.(entries := eh.entries[..ix] + [Index(key, child)] + eh.entries[ix..])];
      err := EOK;
    }

    /** One iteration of the loop in ext4_ext_split_node: moves what follows the current entry of
        a node to a new block; in an inner node the new block starts with an index to the block
        made one level below. */
    method CutLevel(path: seq<PathEnt>, i: nat, x: Entry, ins: nat, below: seq<nat>,
                    ghost m0: map<nat, Node>, ghost xs: seq<Entry>, ghost kid: Tree, ghost lt: Tree, ghost rt: Tree)
      returns (nb: nat, ghost kid': Tree, ghost lt': Tree, ghost rt': Tree)
      requires Ready(m0, tree, cap, path, x) && PoolFresh(pool, nodes) && pool != []
      requires 0 < i < |path| && FullAt(m0, cap, path, i)
      requires SplitPoint(m0[path[|path| - 1].blk].entries, path[|path| - 1].pos, cap, x, xs, ins)
      requires SplitState(m0, nodes, cap, path, i, x, xs, kid, lt, rt, below, ins)
      requires i < |path| - 1 ==> kid == SubAt(tree, path, 0, i + 1)
      modifies this`nodes, this`pool
      ensures nb == old(pool)[0] && pool == old(pool)[1..] && PoolFresh(pool, nodes)
      ensures SplitState(m0, nodes, cap, path, i - 1, x, xs, kid', lt', rt', below + [nb], ins)
      ensures kid' == SubAt(tree, path, 0, i)
    {
      hide *;
      CutFacts(m0, tree, cap, path, i, x, pool, nodes);
      Uncut(m0, nodes, cap, path, i, x, xs, kid, lt, rt, below, ins);
      nb := pool[0];
      pool := pool[1..];
      var n := nodes[path[i].blk];
      var es := (if |below| == 0 then [] else [Index(ins, below[|below| - 1])]) + n.entries[path[i].pos + 1..];
      nodes := nodes[nb := Node(es, cap, |path| - 1 - i)];
      nodes := nodes[path[i].blk := n.(entries := n.entries[..path[i].pos + 1])];
      PoolNext(pool, old(nodes), nodes, nb);
      kid', lt', rt' := LevelCut(m0, tree, old(nodes), nodes, cap, path, i, x, xs, kid, lt, rt, below, ins, nb, n);
    }

    /** The loop of ext4_ext_split_node: cuts the nodes at levels depth..at of the path after
        their current entry, leaf first, until the allocator fails. */
    method CutLevels(path: seq<PathEnt>, at: nat, x: Entry, ghost xs: seq<Entry>, ins: nat)
      returns (i: int, news: seq<nat>, ghost kid: Tree, ghost lt: Tree, ghost rt: Tree)
      requires Ready(nodes, tree, cap, path, x) && PoolFresh(pool, nodes) && 0 < at < |path|
      requires forall j :: at <= j < |path| ==> FullAt(nodes, cap, path, j)
      requires SplitPoint(nodes[path[|path| - 1].blk].entries, path[|path| - 1].pos, cap, x, xs, ins)
      modifies this`nodes, this`pool
      ensures at - 1 <= i < |path| && PoolFresh(pool, nodes)
      ensures old(pool) == news + pool && (i >= at ==> pool == [])
      ensures SplitState(old(nodes), nodes, cap, path, i, x, xs, kid, lt, rt, news, ins)
      ensures i < |path| - 1 ==> kid == SubAt(tree, path, 0, i + 1)
    {
      hide Stored, Shape, Sorted, CutInv, CutStored, Chain, LeafAfterCut, Found, Walkable, Apart, Held, Flat;
      var depth := |path| - 1;
      news := [];
      kid, lt, rt := tree, tree, tree;
      i := depth;
      while i >= at && |pool| > 0
        invariant at - 1 <= i <= depth
        invariant PoolFresh(pool, nodes) && old(pool) == news + pool
        invariant SplitState(old(nodes), nodes, cap, path, i, x, xs, kid, lt, rt, news, ins)
        invariant i < depth ==> kid == SubAt(tree, path, 0, i + 1)
      {
        var nb;
        nb, kid, lt, rt := CutLevel(path, i, x, ins, news, old(nodes), xs, kid, lt, rt);
        assert old(pool) == (news + [nb]) + pool;
        news := news + [nb];
        i := i - 1;
      }
    }

    /** Gives the blocks of an unfinished split back. */
    method FreeNews(news: seq<nat>)
      modifies this`nodes, this`freed
      ensures nodes == map c | c in old(nodes) && c !in news :: old(nodes)[c]
      ensures freed == old(freed) + news
    {
      var k := 0;
      while k < |news|
        invariant 0 <= k <= |news| && freed == old(freed) + news[..k]
        invariant nodes == map c | c in old(nodes) && c !in news[..k] :: old(nodes)[c]
      {
        nodes := nodes - {news[k]};
        freed := freed + [news[k]];
        k := k + 1;
      }
    }

    /** Cuts the full nodes at levels at..depth of the path after their current entry and links
        the new right halves above: ext4_ext_split_node. Returns the new blocks, leaf first, and
        whether x belongs to the (then empty) new leaf. When the allocator fails half way, what
        was moved to the new blocks is dropped with them. */
    method SplitNode(path: seq<PathEnt>, at: nat, x: Entry)
      returns (err: Err, path': seq<PathEnt>, news: seq<nat>, insRight: bool)
      requires Ready(nodes, tree, cap, path, x) && PoolFresh(pool, nodes) && 0 < at < |path|
      requires forall j :: at <= j < |path| ==> FullAt(nodes, cap, path, j)
      requires var n := nodes[path[at - 1].blk]; 0 <= path[at - 1].pos < |n.entries| < n.max
      modifies this`nodes, this`pool, this`tree, this`freed
      ensures err == EOK || err == ENOSPC
      ensures PoolFresh(pool, nodes)
      ensures path' == if insRight then path[at - 1 := PathEnt(path[at - 1].blk, path[at - 1].pos + 1)] else path
      ensures err == EOK ==>
                SplitHeld(old(nodes), old(tree), nodes, tree, cap, path, at, if insRight then [x] else [], news)
      ensures err == EOK && !insRight ==> SplitLeft(old(nodes), old(tree), nodes, tree, cap, path, x)
      ensures err == EOK && insRight ==> SplitRight(old(nodes), old(tree), nodes, tree, cap, path, at, x, news)
      ensures err == ENOSPC <==> |old(pool)| < |path| - at
      ensures err == EOK ==> pool == old(pool)[|path| - at..] && freed == old(freed)
      ensures err == ENOSPC ==>
                && Held(nodes, tree, cap) && GivenUp(old(nodes), old(tree), path, |path| - |old(pool)|, nodes, tree)
                && pool == [] && freed == old(freed) + old(pool)
    {
      hide *;
      var depth := |path| - 1;
      SplitStart(nodes, tree, cap, path, x);
      var cur := path[depth].pos;
      var leafEs := nodes[path[depth].blk].entries;
      ghost var xs := if cur + 1 < cap then [] else [x];
      var ins := if cur + 1 < cap then leafEs[cur + 1].first else x.first;
      ghost var kid, lt, rt;
      var i;
      i, news, kid, lt, rt := CutLevels(path, at, x, xs, ins);
      ghost var m0, m1 := old(nodes), nodes;
      SplitSize(m0, m1, cap, path, i, x, xs, kid, lt, rt, news, ins);
      if i >= at {
        ghost var kept := map c | c in m1 && c !in news :: m1[c];
        tree := AbortTree(m0, m1, kept, tree, cap, path, i, x, xs, kid, lt, rt, news, ins);
        FreeNews(news);
        PoolLess(pool, m1, nodes);
        return ENOSPC, path, news, false;
      }
      Uncut(m0, m1, cap, path, at - 1, x, xs, kid, lt, rt, news, ins);
      LinkKey(m0, m1, tree, cap, path, at, x, xs, kid, lt, rt, news, ins);
      insRight := !(x.first < ins);
      var ix;
      err, ix := InsertIndex(path[at - 1], ins, news[|news| - 1]);
      path' := if insRight then path[at - 1 := PathEnt(path[at - 1].blk, ix)] else path;
      PoolLess(pool, m1, nodes);
      tree := JoinTree(m0, m1, nodes, tree, cap, path, at, x, xs, kid, lt, rt, news, ins);
    }

    /** A leaf the new extent fits in, at the end of the search path for it in the same extents. */
    ghost predicate RoomLeft(path: seq<PathEnt>, x: Entry, f: seq<Entry>)
      reads this
    {
      && Valid() && Found(tree, path, 0, x.first) && Flat(tree) == f
      && path != [] && path[|path| - 1].blk in nodes
      && |nodes[path[|path| - 1].blk].entries| < nodes[path[|path| - 1].blk].max
    }

    /** Grows the tree one level and searches again, as ext4_ext_insert_extent does when every
        node on the path is full. */
    method GrowRoom(path0: seq<PathEnt>, x: Entry) returns (err: Err, path: seq<PathEnt>)
      requires Valid() && Ready(nodes, tree, cap, path0, x)
      requires forall j :: 0 <= j < |path0| ==>
                 path0[j].blk in nodes && |nodes[path0[j].blk].entries| == nodes[path0[j].blk].max
      modifies this`nodes, this`pool, this`tree
      ensures err == if old(pool) == [] then ENOSPC else EOK
      ensures err == ENOSPC ==> nodes == old(nodes) && tree == old(tree) && pool == old(pool)
      ensures err == EOK ==>
                && pool == old(pool)[1..] && Valid() && Ready(nodes, tree, cap, path, x)
                   && Flat(tree) == old(Flat(tree))
                && tree.es != [] && old(tree).es != [] && old(tree).blk == 0
                && tree == Grown(old(tree), old(pool)[0]) && path == GrownPath(path0, old(pool)[0])
                && nodes.Keys == old(nodes).Keys + {old(pool)[0]}
                && (old(NoLeak(nodes, tree)) ==> NoLeak(nodes, tree))
                && |path| == |path0| + 1
                && (forall j :: 1 < j < |path| ==> FullAt(nodes, cap, path, j))
                && var n := nodes[path[1].blk]; |n.entries| < n.max && (|path| > 2 ==> 0 <= path[1].pos < |n.entries|)
    {
      hide Stored, Shape, Sorted, Found, OnPath, Apart, Flat, Count, NoLeak;
      path := path0;
      LeafReady(nodes, tree, cap, path0, x);
      StoredNode(nodes, tree, nodes[0].depth, cap);
      assert |nodes[path0[0].blk].entries| == ROOT_MAX;
      err := GrowInDepth();
      if err != EOK {
        return;
      }
      path := FindExtent(x.first);
      GrownFull(old(nodes), nodes, old(tree), cap, path0, path, x, old(pool)[0]);
      GrownFlat(old(tree), old(pool)[0]);
      LeafReady(nodes, tree, cap, path, x);
      FullLevels(nodes, tree, cap, path, x, 1);
    }

    /** Splits the nodes from level at down and moves the path over to the new nodes if x belongs
        to them. */
    method SplitRoom(path0: seq<PathEnt>, at: nat, x: Entry)
      returns (err: Err, path: seq<PathEnt>, insRight: bool, news: seq<nat>)
      requires Valid() && Ready(nodes, tree, cap, path0, x) && 0 < at < |path0|
      requires forall j :: at <= j < |path0| ==> FullAt(nodes, cap, path0, j)
      requires var n := nodes[path0[at - 1].blk]; 0 <= path0[at - 1].pos < |n.entries| < n.max
      modifies this`nodes, this`pool, this`tree, this`freed
      ensures err == EOK || err == ENOSPC
      ensures err == ENOSPC <==> |old(pool)| < |path0| - at
      ensures err == EOK ==> pool == old(pool)[|path0| - at..] && freed == old(freed)
      ensures err == ENOSPC ==>
                && Held(nodes, tree, cap) && GivenUp(old(nodes), old(tree), path0, |path0| - |old(pool)|, nodes, tree)
                && pool == [] && freed == old(freed) + old(pool)
      ensures PoolFresh(pool, nodes)
      ensures err == EOK && !insRight ==>
              RoomLeft(path, x, old(Flat(tree))) && (old(NoLeak(nodes, tree)) ==> NoLeak(nodes, tree))
      ensures err == EOK && insRight ==> RoomNew(path, x, at, news, old(NoLeak(nodes, tree)), old(Flat(tree)))
    {
      hide Stored, Shape, Sorted, Found, OnPath, Apart, Flat, View, Count, GivenUp, NoLeak, RangeMap, LeafAfterCut,
          FullAt, RoomRight, Held;
      var depth := |path0| - 1;
      var path1;
      err, path1, news, insRight := SplitNode(path0, at, x);
      path := path1;
      if err != EOK {
        return;
      }
      var level := |path0| - at;
      while level > 0
        invariant 0 <= level <= |news| && |path| == |path1|
        invariant forall j :: 0 <= j < |path| ==>
                    path[j] == if insRight && j >= at + level then RightPath(path0, at, news)[j] else path1[j]
      {
        level := level - 1;
        if insRight {
          path := path[at + level := PathEnt(news[|news| - 1 - level],
                                              if at + level == depth && |nodes[news[0]].entries| == 0
                                              then -1 else 0)];
        }
      }
      if insRight {
        RightRoom(old(nodes), nodes, old(tree), tree, cap, path0, at, x, news, path);
      } else {
        assert path == path0;
        LeafRoom(old(nodes), nodes, old(tree), tree, cap, path0, at, x, news);
      }
    }

    /** A new, empty leaf for x at the end of the path: with x in it the tree is proper, and maps
        what it mapped before and x. */
    ghost predicate RoomNew(path: seq<PathEnt>, x: Entry, at: nat, news: seq<nat>, noLeak: bool, f: seq<Entry>)
      reads this
    {
      && RoomRight(nodes, path, cap, x, at) && news != [] && news[0] == path[|path| - 1].blk
      && Held(Filled(nodes, news, [x], cap), tree, cap)
      && (noLeak ==> NoLeak(Filled(nodes, news, [x], cap), tree))
      && Map() == View(f) + RangeMap(x) && OneMore(f, Flat(tree), x)
    }

    /** Looks upwards from the leaf for a node with room. */
    method LookUp(path: seq<PathEnt>) returns (i: int, level: nat)
      requires forall j :: 0 <= j < |path| ==> path[j].blk in nodes
      ensures -1 <= i < |path| && level == |path| - 1 - i == Fulls(nodes, path, |path|)
      ensures forall j :: i < j < |path| ==> |nodes[path[j].blk].entries| == nodes[path[j].blk].max
      ensures i >= 0 ==> |nodes[path[i].blk].entries| != nodes[path[i].blk].max
    {
      i, level := |path| - 1, 0;
      while i >= 0 && |nodes[path[i].blk].entries| == nodes[path[i].blk].max
        invariant -1 <= i < |path| && level == |path| - 1 - i
        invariant forall j :: i < j < |path| ==> |nodes[path[j].blk].entries| == nodes[path[j].blk].max
      {
        i := i - 1;
        level := level + 1;
      }
      FullsAre(nodes, path, |path|, i);
    }

    /** What ext4_ext_insert_extent does between two tries: looks upwards from the leaf for a node
        with room, grows the tree if there is none, and splits the full nodes. Returns the path
        for the second try, and whether it ends in a new, empty leaf. */
    method MakeRoom(path0: seq<PathEnt>, x: Entry)
      returns (err: Err, path: seq<PathEnt>, insRight: bool, news: seq<nat>, ghost at: nat)
      requires Valid() && Ready(nodes, tree, cap, path0, x)
      requires var n := nodes[path0[|path0| - 1].blk]; |n.entries| == n.max
      modifies this`nodes, this`pool, this`tree, this`freed
      ensures err == EOK || err == ENOSPC
      ensures err == ENOSPC <==> |old(pool)| < Fulls(old(nodes), path0, |path0|)
      ensures err == EOK ==> pool == old(pool)[Fulls(old(nodes), path0, |path0|)..] && freed == old(freed)
      ensures err == ENOSPC ==>
                && Valid() && Aborted(old(nodes), old(tree), path0, old(pool), nodes, tree)
                && pool == [] && freed == old(freed) + Returned(old(nodes), path0, old(pool))
      ensures PoolFresh(pool, nodes)
      ensures err == EOK && !insRight ==>
              RoomLeft(path, x, old(Flat(tree))) && (old(NoLeak(nodes, tree)) ==> NoLeak(nodes, tree))
      ensures err == EOK && insRight ==> RoomNew(path, x, at, news, old(NoLeak(nodes, tree)), old(Flat(tree)))
    {
      hide Stored, Shape, Sorted, Chain, Found, OnPath, Apart, Flat, View, Count, NoLeak, RangeMap, Fulls, GivenUp,
          Aborted, Kept, LooseAt;
      LeafReady(nodes, tree, cap, path0, x);
      path := path0;
      insRight := false;
      news := [];
      var depth := |path| - 1;
      at := 0;
      var i: int, level: int := LookUp(path);
      ghost var m0, t0, pool0, grew := nodes, tree, pool, i < 0;
      if i < 0 {
        err, path := GrowRoom(path0, x);
        if err != EOK {
          NotGrown(m0, t0, path0);
          return;
        }
        level := level - 1;
        depth := depth + 1;
      } else {
        FullLevels(nodes, tree, cap, path, x, i);
      }
      i := depth - (level - 1);
      at := i;
      if level > 0 {
        ghost var m1 := nodes;
        err, path, insRight, news := SplitRoom(path, i, x);
        if err == ENOSPC {
          if grew {
            AbortedGrown(m0, t0, path0, pool0, m1, nodes, tree);
          } else {
            AbortedPlain(m0, t0, path0, pool0, nodes, tree);
          }
        }
      }
    }

    /** One try of ext4_ext_insert_extent: x goes into the leaf at the end of its search path,
        or into the new leaf made for it. */
    method TryInsert(path: seq<PathEnt>, x: Entry, noCombine: bool, ghost insRight: bool, ghost at: nat,
            ghost news: seq<nat>, ghost f: seq<Entry>, ghost noLeak: bool)
      returns (err: Err, needSplit: bool)
      requires IsExtent(x) && Apart(x, f) && PoolFresh(pool, nodes)
      requires !insRight ==>
               Valid() && Found(tree, path, 0, x.first) && Flat(tree) == f && (noLeak ==> NoLeak(nodes, tree))
      requires insRight ==> RoomNew(path, x, at, news, noLeak, f) && !Misplaced(f, x, noCombine)
      modifies this`nodes, this`tree
      ensures !insRight ==> Ready(old(nodes), old(tree), cap, path, x) && SearchEnds(old(nodes), path)
      ensures needSplit <==> !insRight && MustSplit(old(nodes), f, path, x, noCombine)
      ensures needSplit ==>
                && err == EIO && nodes == old(nodes) && tree == old(tree)
                && !insRight && Ready(nodes, tree, cap, path, x) && !Misplaced(f, x, noCombine)
                && var n := nodes[path[|path| - 1].blk]; |n.entries| == n.max
      ensures !needSplit ==>
              && err == EOK && Valid() && Map() == Inserted(f, x, noCombine) && (noLeak ==> NoLeak(nodes, tree))
              && (if insRight then OneMore(f, Flat(tree), x) else Grows(f, Flat(tree), x, noCombine))
    {
      hide Stored, Shape, Sorted, Found, Apart, Flat, View, Count, NoLeak, RangeMap, Inserted, Misplaced, LeafOutcome,
          Grows, OneMore, Merges, ActionFor;
      ghost var m := nodes;
      if !insRight {
        LeafReady(nodes, tree, cap, path, x);
        SearchEnd(nodes, tree, cap, path, x.first);
        SplitExact(nodes, tree, cap, path, x, noCombine, nodes[path[|path| - 1].blk]);
      }
      err, needSplit := InsertLeaf(path, x, noCombine);
      if insRight {
        NewLeafDone(m, nodes, path, cap, x, noCombine, at, news, f, err, needSplit);
      } else {
        OutcomeSplit(m, nodes, path, x, noCombine, err, needSplit);
        tree := OldLeafDone(m, nodes, tree, cap, path, x, noCombine, err, needSplit);
      }
    }

    /** Adds the extent x, none of whose blocks is mapped, at its search path: ext4_ext_insert_extent.
        Room is made at most once, with a block for every full node from the leaf up to the first node with
        room. If these cannot be had, mappings are lost with the blocks of an unfinished split; see
        AbortLoss. */
    method InsertExtent(path0: seq<PathEnt>, x: Entry, noCombine: bool) returns (err: Err)
      requires Valid() && Found(tree, path0, 0, x.first) && IsExtent(x) && Apart(x, Flat(tree))
      modifies this`nodes, this`pool, this`tree, this`freed
      ensures Valid()
      ensures err == EOK || err == ENOSPC
      ensures err == EOK ==> Map() == Inserted(old(Flat(tree)), x, noCombine)
      ensures err == EOK && old(NoLeak(nodes, tree)) ==> NoLeak(nodes, tree)
      ensures Ready(old(nodes), old(tree), cap, path0, x) && SearchEnds(old(nodes), path0)
      ensures err == EOK ==> Grows(old(Flat(tree)), Flat(tree), x, noCombine)
      ensures !noCombine && Merges(old(Flat(tree)), x) ==>
                err == EOK && pool == old(pool) && |Flat(tree)| == |old(Flat(tree))|
      ensures err == ENOSPC <==>
                MustSplit(old(nodes), old(Flat(tree)), path0, x, noCombine)
                && |old(pool)| < Fulls(old(nodes), path0, |path0|)
      ensures err == EOK ==>
                && pool == old(pool)[if MustSplit(old(nodes), old(Flat(tree)), path0, x, noCombine)
                                     then Fulls(old(nodes), path0, |path0|) else 0..]
                && freed == old(freed)
      ensures err == ENOSPC ==>
                && Aborted(old(nodes), old(tree), path0, old(pool), nodes, tree)
                && pool == [] && freed == old(freed) + Returned(old(nodes), path0, old(pool))
    {
      hide Stored, Shape, Sorted, Found, OnPath, Apart, Flat, View, Count, NoLeak, RangeMap, Held, Inserted, Aborted,
          Fulls, Merges, Grows, OneMore;
      var path := path0;
      var needSplit, insRight, news := false, false, [];
      ghost var retry, at := false, 0;
      while true
        invariant PoolFresh(pool, nodes) && (insRight ==> retry)
        invariant retry ==> !Misplaced(old(Flat(tree)), x, noCombine)
        invariant freed == old(freed)
        invariant !retry ==> path == path0 && nodes == old(nodes) && tree == old(tree) && pool == old(pool)
        invariant retry ==>
                    && Ready(old(nodes), old(tree), cap, path0, x) && SearchEnds(old(nodes), path0)
                    && MustSplit(old(nodes), old(Flat(tree)), path0, x, noCombine)
                    && Fulls(old(nodes), path0, |path0|) <= |old(pool)|
                       && pool == old(pool)[Fulls(old(nodes), path0, |path0|)..]
        invariant retry && !insRight ==>
                  RoomLeft(path, x, old(Flat(tree))) && (old(NoLeak(nodes, tree)) ==> NoLeak(nodes, tree))
        invariant insRight ==> RoomNew(path, x, at, news, old(NoLeak(nodes, tree)), old(Flat(tree)))
        decreases !retry
      {
        err, needSplit := TryInsert(path, x, noCombine, insRight, at, news, old(Flat(tree)), old(NoLeak(nodes, tree)));
        if err != EIO || !needSplit {
          GrowsHow(old(Flat(tree)), Flat(tree), x, noCombine);
          return;
        }
        err, path, insRight, news, at := MakeRoom(path, x);
        if err != EOK {
          return;
        }
        retry := true;
      }
    }

    /** Removes the index at the path's position in the node at level i, gives the block under it
        back, and passes the key on upwards where the position was the first one:
        ext4_ext_remove_idx. */
    method RemoveIdx(path: seq<PathEnt>, i: nat)
      requires i < |path| && path[i].blk in nodes
      requires 0 <= path[i].pos < |nodes[path[i].blk].entries| && nodes[path[i].blk].entries[path[i].pos].Index?
      requires var n := nodes[path[i].blk];
               Upward(nodes[path[i].blk := RemoveAt(n, path[i].pos)] - {n.entries[path[i].pos].leaf}, path, i)
      modifies this`nodes, this`freed
      ensures var child := old(nodes)[path[i].blk].entries[path[i].pos].leaf;
              nodes == Removed(old(nodes), path, i, child) && freed == old(freed) + [child]
    {
      var n, p := nodes[path[i].blk], path[i].pos;
      var leaf := n.entries[p].leaf;
      var key := n.entries[p].first;
      if p != |n.entries| - 1 {
        key := n.entries[p + 1].first;
      }
      nodes := nodes[path[i].blk := RemoveAt(n, p)];
      nodes := nodes - {leaf};
      freed := freed + [leaf];
      var k := i;
      while k > 0 && path[k].pos == 0
        invariant 0 <= k <= i && Upward(nodes, path, k) && freed == old(freed) + [leaf]
        invariant RekeyAll(nodes, path, k, path[k].pos, key) == Removed(old(nodes), path, i, leaf)
      {
        var e := path[k - 1];
        nodes := nodes[e.blk := KeyTo(nodes[e.blk], e.pos, key)];
        k := k - 1;
      }
    }

    /** The loop of ext4_ext_remove_leaf: gives back the data blocks of the extents from pos on,
        shortens the one from lies in, and counts the extents that are left. */
    method CutEntries(es0: seq<Entry>, pos: nat, from: nat) returns (es: seq<Entry>, newEntries: nat)
      requires Extents(es0) && pos < |es0|
      requires (forall i :: 0 <= i < pos ==> End(es0[i]) <= from) && from < End(es0[pos])
      requires forall i :: pos < i < |es0| ==> from <= es0[i].first
      modifies this`lost
      ensures newEntries <= |es| && es[..newEntries] == LowAll(es0, from)
      ensures lost == old(lost) + HighAll(es0, from)
    {
      hide LowAll, HighAll;
      LeafLow(es0, pos, from);
      ghost var e0 := es0[pos];
      es := es0;
      var ex := pos;
      newEntries := |es|;
      while ex < |es|
        invariant pos <= ex <= |es| == |es0|
        invariant forall j :: 0 <= j < |es| && j != pos ==> es[j] == es0[j]
        invariant es[pos] == if ex > pos && e0.first < from then Extent(e0.first, from - e0.first, e0.start) else e0
        invariant newEntries == |es| - (ex - pos) + (if ex > pos && e0.first < from then 1 else 0)
        invariant lost == old(lost) + (if ex == pos then [] else High(e0, from) + es0[pos + 1..ex])
      {
        var start, len, newLen := es[ex].first, es[ex].len, 0;
        if start < from {
          len := len - (from - start);
          newLen := from - start;
          start := from;
        }
        ghost var gone := Extent(start, len, es[ex].start + (start - es[ex].first));
        lost := lost + [Extent(start, len, es[ex].start + (start - es[ex].first))];
        if ex == pos {
          assert High(e0, from) == [gone];
          assert es0[pos + 1..ex + 1] == [];
        } else {
          assert gone == es0[ex];
          assert es0[pos + 1..ex + 1] == es0[pos + 1..ex] + [es0[ex]];
        }
        if newLen == 0 {
          newEntries := newEntries - 1;
        } else {
          es := es[ex := Extent(es[ex].first, newLen, es[ex].start)];
        }
        ex := ex + 1;
      }
      assert es[..pos] == es0[..pos];
      assert es[..newEntries] == es0[..pos] + Low(e0, from);
    }

    /** Cuts the leaf at the end of the path from its position on: ext4_ext_remove_leaf, for a
        removal that goes to the end of the file. Returns the path with the position above
        moved on if the leaf stays. */
    method RemoveLeaf(path0: seq<PathEnt>, from: nat) returns (path: seq<PathEnt>, ghost dropped: seq<nat>)
      requires Cuttable(nodes, path0, from)
      modifies this`nodes, this`freed, this`lost
      ensures LeafTrimmed(old(nodes), nodes, path0, path, LowAll(old(nodes)[path0[|path0| - 1].blk].entries, from),
                  dropped)
      ensures lost == old(lost) + HighAll(old(nodes)[path0[|path0| - 1].blk].entries, from)
      ensures freed == old(freed) + dropped
    {
      hide LowAll, HighAll, Removed;
      path, dropped := path0, [];
      var depth := |path| - 1;
      var blk, pos := path[depth].blk, path[depth].pos;
      var es, newEntries := CutEntries(nodes[blk].entries, pos, from);
      nodes := nodes[blk := nodes[blk].(entries := es[..newEntries])];
      if pos == 0 && newEntries != 0 {
        CorrectIndexes(path, 0);
      }
      if newEntries == 0 && blk != 0 {
        dropped := [blk];
        RemoveIdx(path, depth - 1);
      } else if depth > 0 {
        path := path[depth - 1 := PathEnt(path[depth - 1].blk, path[depth - 1].pos + 1)];
      }
    }

    /** One iteration of the walk below a node: opens the next child. */
    method Descend(path0: seq<PathEnt>, i: nat, from: nat, ghost m0: map<nat, Node>, ghost t0: Tree, ghost c0: Ctx,
                   ghost gone: seq<nat>, ghost was: seq<Entry>)
      returns (path: seq<PathEnt>, ghost c: Ctx)
      requires i + 1 < |path0| && Walk(m0, t0, nodes, cap, path0, i, c0, from, gone, was)
      requires path0[i].blk in nodes && 0 <= path0[i].pos < |nodes[path0[i].blk].entries|
      ensures |path| == |path0| && Walk(m0, t0, nodes, cap, path, i + 1, c, from, gone, was) && CtxSize(c) < CtxSize(c0)
    {
      hide Accounts, Flows, CtxStored, CtxLinks, CtxSize, LowAll, HighAll;
      PendingKid(nodes, cap, path0, i, c0);
      var child := nodes[path0[i].blk].entries[path0[i].pos].leaf;
      path := path0[i + 1 := PathEnt(child, 0)];
      if i + 2 == |path0| {
        c := EnterLeaf(m0, t0, nodes, cap, path0, c0, from, gone, was, path);
      } else {
        c := EnterNode(m0, t0, nodes, cap, path0, i, c0, from, gone, was, path);
      }
    }

    /** One iteration of the walk at a node with nothing left to visit: the node goes if it is
        empty, or the position above it moves on. */
    method Ascend(path0: seq<PathEnt>, i: nat, from: nat, ghost m0: map<nat, Node>, ghost t0: Tree, ghost c0: Ctx,
                  ghost gone0: seq<nat>, ghost was: seq<Entry>)
      returns (path: seq<PathEnt>, ghost c: Ctx, ghost gone: seq<nat>)
      requires i + 1 < |path0| && Walk(m0, t0, nodes, cap, path0, i, c0, from, gone0, was)
      requires path0[i].blk in nodes && path0[i].pos >= |nodes[path0[i].blk].entries|
      modifies this`nodes, this`freed
      ensures |path| == |path0| && Walk(m0, t0, nodes, cap, path, i - 1, c, from, gone, was)
              && CtxSize(c) == CtxSize(c0)
      ensures |gone0| <= |gone| && freed == old(freed) + gone[|gone0|..] && gone[..|gone0|] == gone0
    {
      hide Accounts, Flows, CtxStored, CtxLinks, CtxSize, LowAll, HighAll, Removed;
      NoPending(nodes, cap, path0, i, c0);
      path, c, gone := path0, c0, gone0;
      if i > 0 {
        if |nodes[path[i].blk].entries| == 0 {
          CloseRemovable(m0, t0, nodes, cap, path, i, c0, from, gone, was);
          c := CloseDropped(m0, t0, nodes, cap, path, i, c0, from, gone, was);
          gone := gone0 + [path[i].blk];
          RemoveIdx(path, i - 1);
        } else {
          path := path[i - 1 := PathEnt(path[i - 1].blk, path[i - 1].pos + 1)];
          c := CloseKept(m0, t0, nodes, cap, path0, i, c0, from, gone, was, path);
        }
      }
    }

    /** Unmaps and gives back everything from block from on, if from is mapped:
        ext4_extent_remove_space up to EXT_MAX_BLOCKS. Nothing happens if from is in a hole. */
    method RemoveSpace(from: nat)
      requires Valid()
      modifies this`nodes, this`tree, this`freed, this`lost
      ensures Valid()
      ensures from !in old(Map()) ==>
              nodes == old(nodes) && tree == old(tree) && freed == old(freed) && lost == old(lost)
      ensures from in old(Map()) ==>
                && Map() == Below(old(Map()), from)
                && |old(lost)| <= |lost| && lost[..|old(lost)|] == old(lost)
                && Sorted(lost[|old(lost)|..]) && View(lost[|old(lost)|..]) == From(old(Map()), from)
      ensures |old(freed)| <= |freed| && freed[..|old(freed)|] == old(freed)
      ensures forall b: nat :: Count(tree, b) + Occ(freed[|old(freed)|..], b) == old(Count(tree, b))
      ensures forall b: nat :: b in nodes <==> b in old(nodes) && Occ(freed[|old(freed)|..], b) == 0
    {
      hide Accounts, Flows, CtxStored, CtxLinks, CtxSize, LowAll, HighAll, Removed, View, RangeMap, Flat, Found, OnPath,
          Walk, Count, Cuttable, LeafTrimmed, Below, From, Sorted, Stored, Shape;
      assert freed[|old(freed)|..] == [];
      var path := FindExtent(from);
      var depth := nodes[0].depth;
      SearchLeaf(nodes, tree, cap, path, from);
      var pos := path[depth].pos;
      if pos == -1 {
        return;
      }
      var ex := nodes[path[depth].blk].entries[pos];
      if !(ex.first <= from < ex.first + ex.len) {
        return;
      }
      ghost var m0, t0, gone, was := nodes, tree, [], [];
      ghost var c := WalkStart(nodes, tree, cap, path, from);
      var i := depth;
      while i >= 0
        invariant -1 <= i <= depth == |path| - 1
        invariant Walk(m0, t0, nodes, cap, path, i, c, from, gone, was)
        invariant freed == old(freed) + gone && lost == old(lost) + was
        invariant tree == t0 == old(tree) && m0 == old(nodes) && pool == old(pool)
        decreases CtxSize(c), i + 1
      {
        WalkNode(m0, t0, nodes, cap, path, i, c, from, gone, was);
        if i == depth {
          var es := nodes[path[i].blk].entries;
          ghost var m, path1 := nodes, path;
          WalkCuttable(m0, t0, nodes, cap, path, c, from, gone, was, es);
          assert |es| > 0;
          ghost var dropped;
          path, dropped := RemoveLeaf(path, LeafFrom(es, from));
          c := LeafCutDone(m0, t0, m, cap, path1, c, from, gone, was, es, nodes, path, dropped);
          gone, was := gone + dropped, was + HighAll(es, from);
          i := i - 1;
        } else if path[i].pos < |nodes[path[i].blk].entries| {
          path, c := Descend(path, i, from, m0, t0, c, gone, was);
          i := i + 1;
        } else {
          path, c, gone := Ascend(path, i, from, m0, t0, c, gone, was);
          i := i - 1;
        }
      }
      ghost var t := WalkDone(m0, t0, nodes, cap, path, c, from, gone, was);
      tree := t;
      if |nodes[0].entries| == 0 {
        nodes := nodes[0 := Node([], ROOT_MAX, 0)];
      }
      CutView(Flat(t0), from);
    }

    /** Looks block iblock of the file up, and allocates it if it is not mapped and create is set:
        ext4_extent_get_blocks. A new extent always has one block, because that is what
        ext4_new_meta_blocks hands out whatever was asked for. count is 0 when nothing is mapped. */
    method GetBlocks(iblock: nat, maxBlocks: nat, create: bool)
      returns (err: Err, result: nat, count: nat, ghost path0: seq<PathEnt>)
      requires Valid() && iblock < MAX_BLOCKS
      modifies this`nodes, this`pool, this`tree, this`freed
      ensures Valid()
      ensures iblock in old(Map()) || !create ==> unchanged(this) && err == EOK
      ensures iblock in old(Map()) ==> result == old(Map())[iblock] && count <= maxBlocks
      ensures iblock in old(Map()) ==>
              forall k :: iblock <= k < iblock + count ==> k in old(Map()) && old(Map())[k] == result + (k - iblock)
      ensures iblock in old(Map()) && maxBlocks > 0 ==> count > 0
      ensures iblock in old(Map()) && count < maxBlocks ==> EndsWith(old(Flat(tree)), iblock, count)
      ensures iblock !in old(Map()) && (!create || err != EOK) ==> result == 0 && count == 0
      ensures Found(old(tree), path0, 0, iblock) && SearchEnds(old(nodes), path0)
      ensures err == EOK || err == ENOSPC
      ensures err == ENOSPC <==>
                && iblock !in old(Map()) && create
                && (old(pool) == []
                    || (MustSplit(old(nodes), old(Flat(tree)), path0, Extent(iblock, 1, old(pool)[0]), false)
                        && |old(pool)| - 1 < Fulls(old(nodes), path0, |path0|)))
      ensures iblock !in old(Map()) && create && err == EOK ==>
                && old(pool) != [] && result == old(pool)[0] && count == (if maxBlocks < 1 then maxBlocks else 1)
                && Map() == Inserted(old(Flat(tree)), Extent(iblock, 1, result), false)
                && (old(NoLeak(nodes, tree)) ==> NoLeak(nodes, tree))
      ensures err == ENOSPC && old(pool) == [] ==> unchanged(this)
      ensures err == ENOSPC && old(pool) != [] ==>
                && Aborted(old(nodes), old(tree), path0, old(pool)[1..], nodes, tree) && pool == []
                && freed == old(freed) + Returned(old(nodes), path0, old(pool)[1..]) + [old(pool)[0]]
    {
      hide Found, OnPath, Flat, View, Count, NoLeak, RangeMap, Inserted, Stored, Shape, Apart, Sorted, Aborted, Fulls;
      err, result, count := EOK, 0, 0;
      var path := FindExtent(iblock);
      path0 := path;
      SearchEnd(nodes, tree, cap, path, iblock);
      var depth := nodes[0].depth;
      SearchLeaf(nodes, tree, cap, path, iblock);
      var got := 0;
      var newblock;
      var pos := path[depth].pos;
      if pos != -1 {
        var ex := nodes[path[depth].blk].entries[pos];
        if ex.first <= iblock < ex.first + ex.len {
          got := ex.len - (iblock - ex.first);
          newblock := iblock - ex.first + ex.start;
          if got > maxBlocks {
            got := maxBlocks;
          }
          RestOfExtent(nodes, tree, cap, path, iblock, ex, got);
          return EOK, newblock, got, path;
        }
      }
      if !create {
        return;
      }
      if |pool| == 0 {
        return ENOSPC, 0, 0, path;
      }
      newblock := pool[0];
      pool := pool[1..];
      got := 1;
      var newex := Extent(iblock, got, newblock);
      UnmappedApart(nodes, tree, cap, newex);
      err := InsertExtent(path, newex, false);
      if err != EOK {
        freed := freed + [newblock];
        return;
      }
      if got > maxBlocks {
        got := maxBlocks;
      }
      return EOK, newblock, got, path;
    }
  }
}
