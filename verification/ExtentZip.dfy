/** The state of the truncate walk: the nodes from the current one up to the root, each with the
    children it keeps and the ones still to be removed. */
module ExtentZip {
  import opened ExtentEntries
  import opened ExtentTree
  import opened ExtentPath
  import opened ExtentHeld

  /** A node on the way up: the kept children, the key over the child the walk is in, and the
      children not yet visited. In the frame of the current node the key has no meaning. */
  datatype Ctx =
    | Top
    | Frame(blk: nat, ke: seq<Entry>, kept: seq<Tree>, key: nat, pe: seq<Entry>, pend: seq<Tree>, up: Ctx)

  /** Kept and pending extents of all levels, in order. */
  ghost function CtxKept(c: Ctx): seq<Entry> {
    if c.Top? then [] else CtxKept(c.up) + FlatAll(c.kept)
  }

  ghost function CtxPend(c: Ctx): seq<Entry> {
    if c.Top? then [] else FlatAll(c.pend) + CtxPend(c.up)
  }

  ghost function CtxCount(c: Ctx, b: nat): nat {
    if c.Top? then 0 else
      (if c.blk == b then 1 else 0) + CountAll(c.kept, b) + CountAll(c.pend, b) + CtxCount(c.up, b)
  }

  ghost function Size(t: Tree): nat
    decreases t, 1
  {
    1 + (if t.Leaf? then 0 else SizeAll(t.kids))
  }

  ghost function SizeAll(ks: seq<Tree>): nat
    decreases ks, 0
  {
    if ks == [] then 0 else Size(ks[0]) + SizeAll(ks[1..])
  }

  /** How many nodes are still to be visited. */
  ghost function CtxSize(c: Ctx): nat {
    if c.Top? then 0 else SizeAll(c.pend) + CtxSize(c.up)
  }

  /** The path from the root to the innermost frame, with the positions after the kept children. */
  ghost predicate CtxPath(c: Ctx, path: seq<PathEnt>, n: nat)
    decreases c
  {
    && n <= |path|
    && (c.Top? <==> n == 0)
    && (c.Frame? ==>
          && path[n - 1] == PathEnt(c.blk, |c.kept|)
          && (c.blk == 0 <==> n == 1)
          && CtxPath(c.up, path, n - 1))
  }

  ghost predicate StoredAll(m: map<nat, Node>, ks: seq<Tree>, h: nat, cap: nat) {
    forall i :: 0 <= i < |ks| ==> Stored(m, ks[i], h, cap)
  }

  /** The blocks hold the frames, the innermost h levels above the leaves and open at block child. */
  ghost predicate CtxStored(m: map<nat, Node>, c: Ctx, child: nat, h: nat, cap: nat)
    decreases c
  {
    c.Frame? ==>
      && h > 0 && c.blk in m
      && m[c.blk] == Node(c.ke + [Index(c.key, child)] + c.pe, MaxOf(c.blk, cap), h)
      && |c.ke + [Index(c.key, child)] + c.pe| <= MaxOf(c.blk, cap)
      && |c.ke| == |c.kept|
      && StoredAll(m, c.kept, h - 1, cap) && StoredAll(m, c.pend, h - 1, cap)
      && CtxStored(m, c.up, c.blk, h + 1, cap)
  }

  /** Indexes over non-empty proper subtrees. */
  ghost predicate Pends(es: seq<Entry>, ks: seq<Tree>) {
    && |es| == |ks|
    && forall i :: 0 <= i < |ks| ==> es[i].Index? && es[i].leaf == ks[i].blk && Shape(ks[i]) && Flat(ks[i]) != []
  }

  /** ... whose keys are right. */
  ghost predicate Links(es: seq<Entry>, ks: seq<Tree>) {
    && Pends(es, ks)
    && forall i :: 0 <= i < |ks| ==> KeyOk(i, es[i].first, Flat(ks[i])[0])
  }

  /** Indexes match subtrees on all levels. below are the extents kept under the open child of the
      innermost frame: the key over an open child counts only if something is kept there. */
  ghost predicate CtxLinks(c: Ctx, below: seq<Entry>) {
    c.Frame? ==>
      && Links(c.ke, c.kept) && Pends(c.pe, c.pend)
      && (below != [] ==> KeyOk(|c.kept|, c.key, below[0]))
      && CtxLinks(c.up, FlatAll(c.kept) + below)
  }

  /** The keys over the first entries set to key, from the node above position pos upwards. */
  ghost function CtxRekey(c: Ctx, pos: nat, key: nat): Ctx {
    if c.Top? || pos != 0 then c else c.(key := key, up := CtxRekey(c.up, |c.kept|, key))
  }

  /** The same on the blocks: what ext4_ext_remove_idx and ext4_ext_correct_indexes do on the way up. */
  ghost function RekeyAll(m: map<nat, Node>, path: seq<PathEnt>, n: nat, pos: int, key: nat): map<nat, Node>
    requires n <= |path|
  {
    if n == 0 || pos != 0 then m else
      var e := path[n - 1];
      if e.blk in m && 0 <= e.pos < |m[e.blk].entries|
      then RekeyAll(m[e.blk := KeyTo(m[e.blk], e.pos, key)], path, n - 1, e.pos, key)
      else m
  }

  lemma {:induction false} RekeyMeasures(c: Ctx, pos: nat, key: nat)
    ensures var d := CtxRekey(c, pos, key);
            && CtxKept(d) == CtxKept(c) && CtxPend(d) == CtxPend(c) && CtxSize(d) == CtxSize(c)
            && (forall b :: CtxCount(d, b) == CtxCount(c, b))
  {
    if c.Frame? && pos == 0 {
      RekeyMeasures(c.up, |c.kept|, key);
    }
  }

  lemma {:induction false} RekeyPath(c: Ctx, pos: nat, key: nat, path: seq<PathEnt>, n: nat)
    requires CtxPath(c, path, n)
    ensures CtxPath(CtxRekey(c, pos, key), path, n)
  {
    if c.Frame? && pos == 0 {
      RekeyPath(c.up, |c.kept|, key, path, n - 1);
    }
  }

  /** Setting keys over first entries is harmless where nothing is kept, and right where the first
      kept extent starts at the key. */
  lemma {:induction false} RekeyLinks(c: Ctx, was: seq<Entry>, below: seq<Entry>, key: nat)
    requires CtxLinks(c, was)
    requires below != [] ==> IsExtent(below[0]) && below[0].first == key
    requires below != [] ==> was != []
    ensures CtxLinks(CtxRekey(c, 0, key), below)
    decreases c
  {
    if c.Frame? {
      if |c.kept| == 0 {
        assert FlatAll(c.kept) + below == below && FlatAll(c.kept) + was == was;
        RekeyLinks(c.up, was, below, key);
      } else {
        SameLinks(c.up, FlatAll(c.kept) + was, FlatAll(c.kept) + below);
      }
    }
  }

  /** Only the first kept extent below matters. */
  lemma {:induction false} SameLinks(c: Ctx, was: seq<Entry>, below: seq<Entry>)
    requires CtxLinks(c, was)
    requires below != [] ==> was != [] && below[0] == was[0]
    ensures CtxLinks(c, below)
    decreases c
  {
    if c.Frame? {
      SameLinks(c.up, FlatAll(c.kept) + was, FlatAll(c.kept) + below);
    }
  }

  lemma {:induction false} StoredAllFrame(m: map<nat, Node>, m': map<nat, Node>, ks: seq<Tree>, h: nat, cap: nat)
    requires StoredAll(m, ks, h, cap)
    requires forall b :: CountAll(ks, b) > 0 && b in m ==> b in m' && m'[b] == m[b]
    ensures StoredAll(m', ks, h, cap)
  {
    forall i | 0 <= i < |ks|
      ensures Stored(m', ks[i], h, cap)
    {
      forall b | Count(ks[i], b) > 0 && b in m
        ensures b in m' && m'[b] == m[b]
      {
        CountAllAt(ks, i, b);
      }
      StoredFrame(m, m', ks[i], h, cap);
    }
  }

  lemma {:induction false} CtxFrame(m: map<nat, Node>, m': map<nat, Node>, c: Ctx, child: nat, h: nat, cap: nat)
    requires CtxStored(m, c, child, h, cap)
    requires forall b :: CtxCount(c, b) > 0 && b in m ==> b in m' && m'[b] == m[b]
    ensures CtxStored(m', c, child, h, cap)
    decreases c
  {
    if c.Frame? {
      assert CtxCount(c, c.blk) > 0;
      StoredAllFrame(m, m', c.kept, h - 1, cap);
      StoredAllFrame(m, m', c.pend, h - 1, cap);
      CtxFrame(m, m', c.up, c.blk, h + 1, cap);
    }
  }

  /** The blocks of the frames themselves. */
  ghost predicate OnSpine(c: Ctx, b: nat) {
    c.Frame? && (c.blk == b || OnSpine(c.up, b))
  }

  lemma {:induction false} SpineCount(c: Ctx, b: nat)
    requires OnSpine(c, b)
    ensures CtxCount(c, b) > 0
  {
    if c.blk != b {
      SpineCount(c.up, b);
    }
  }

  lemma {:induction false} RekeyNode(m: map<nat, Node>, c: Ctx, child: nat, h: nat, cap: nat, key: nat)
    requires c.Frame? && CtxStored(m, c, child, h, cap)
    ensures KeyTo(m[c.blk], |c.kept|, key) == Node(c.ke + [Index(key, child)] + c.pe, MaxOf(c.blk, cap), h)
  {
  }

  /** Setting the keys on the blocks is setting them in the frames. */
  lemma {:induction false} RekeyStored(m: map<nat, Node>, c: Ctx, child: nat, h: nat, cap: nat, path: seq<PathEnt>,
          n: nat, pos: nat, key: nat)
    requires CtxStored(m, c, child, h, cap) && CtxPath(c, path, n)
    requires forall b :: CtxCount(c, b) <= 1
    ensures var m' := RekeyAll(m, path, n, pos, key);
            && CtxStored(m', CtxRekey(c, pos, key), child, h, cap)
            && m'.Keys == m.Keys
            && (forall b :: b in m && !OnSpine(c, b) ==> m'[b] == m[b])
    decreases c
  {
    if c.Frame? && pos == 0 {
      var m1 := m[c.blk := KeyTo(m[c.blk], |c.kept|, key)];
      RekeyNode(m, c, child, h, cap, key);
      forall b
        ensures CtxCount(c.up, b) + (if b == c.blk then 1 else 0) <= CtxCount(c, b) <= 1
      {
      }
      CtxFrame(m, m1, c.up, c.blk, h + 1, cap);
      RekeyStored(m1, c.up, c.blk, h + 1, cap, path, n - 1, |c.kept|, key);
      RekeyKids(m, RekeyAll(m1, path, n - 1, |c.kept|, key), c, child, h, cap);
    }
  }

  lemma {:induction false} RekeyKids(m: map<nat, Node>, m': map<nat, Node>, c: Ctx, child: nat, h: nat, cap: nat)
    requires c.Frame? && CtxStored(m, c, child, h, cap)
    requires forall b :: CtxCount(c, b) <= 1
    requires forall b :: b in m && b != c.blk && !OnSpine(c.up, b) ==> b in m' && m'[b] == m[b]
    ensures StoredAll(m', c.kept, h - 1, cap) && StoredAll(m', c.pend, h - 1, cap)
    ensures !OnSpine(c.up, c.blk)
  {
    forall b | CountAll(c.kept, b) > 0 || CountAll(c.pend, b) > 0 || b == c.blk
      ensures !OnSpine(c.up, b) && (CountAll(c.kept, b) > 0 || CountAll(c.pend, b) > 0 ==> b != c.blk)
    {
      assert CtxCount(c, b) <= 1;
      if OnSpine(c.up, b) {
        SpineCount(c.up, b);
      }
    }
    StoredAllFrame(m, m', c.kept, h - 1, cap);
    StoredAllFrame(m, m', c.pend, h - 1, cap);
  }

  /** The nodes above level i can be followed. */
  ghost predicate Upward(m: map<nat, Node>, path: seq<PathEnt>, i: nat) {
    i <= |path| && forall j :: 0 <= j < i ==> path[j].blk in m && 0 <= path[j].pos < |m[path[j].blk].entries|
  }

  /** What setting the keys upwards does to each node of the path. */
  lemma {:induction false} RekeyAt(m: map<nat, Node>, path: seq<PathEnt>, n: nat, pos: int, key: nat)
    requires Upward(m, path, n) && n < |path|
    requires forall i, j :: 0 <= i < j < |path| ==> path[i].blk != path[j].blk
    ensures var m' := RekeyAll(m, path, n, pos, key);
            && m'.Keys == m.Keys
            && (forall j :: 0 <= j < n ==>
                  m'[path[j].blk] ==
                  if pos == 0 && AllZero(path, j + 1, n) then KeyTo(m[path[j].blk], path[j].pos, key)
                  else m[path[j].blk])
            && (forall b :: b in m && (forall j :: 0 <= j < n ==> path[j].blk != b) ==> m'[b] == m[b])
  {
    if n > 0 && pos == 0 {
      var e := path[n - 1];
      var m1 := m[e.blk := KeyTo(m[e.blk], e.pos, key)];
      RekeyAt(m1, path, n - 1, e.pos, key);
      forall j | 0 <= j < n
        ensures m[path[j].blk] == m[path[j].blk]
                && (AllZero(path, j + 1, n) <==> j == n - 1 || (e.pos == 0 && AllZero(path, j + 1, n - 1)))
      {
      }
    }
  }

  lemma {:induction false} RekeyKeysSet(m: map<nat, Node>, path: seq<PathEnt>, pos: int, key: nat)
    requires Walkable(m, path)
    ensures KeysSet(m, RekeyAll(m, path, |path| - 1, pos, key), path, |path| - 1, pos == 0, key)
  {
    RekeyAt(m, path, |path| - 1, pos, key);
  }
}
