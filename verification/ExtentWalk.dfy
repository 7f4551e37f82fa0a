/** The steps of the truncate walk: keeping a node, dropping it, opening the next one. */
module ExtentWalk {
  import opened ExtentEntries
  import opened ExtentTree
  import opened ExtentPath
  import opened ExtentHeld
  import opened ExtentZip

  /** The blocks hold the frames, and the innermost node has no open child. */
  ghost predicate CurStored(m: map<nat, Node>, c: Ctx, h: nat, cap: nat) {
    && c.Frame? && h > 0 && c.blk in m
    && m[c.blk] == Node(c.ke + c.pe, MaxOf(c.blk, cap), h)
    && |c.ke + c.pe| <= MaxOf(c.blk, cap)
    && |c.ke| == |c.kept|
    && StoredAll(m, c.kept, h - 1, cap) && StoredAll(m, c.pend, h - 1, cap)
    && CtxStored(m, c.up, c.blk, h + 1, cap)
  }

  ghost predicate CurLinks(c: Ctx) {
    c.Frame? && Links(c.ke, c.kept) && Pends(c.pe, c.pend) && CtxLinks(c.up, FlatAll(c.kept))
  }

  // ---- a child that stays ----

  ghost function Keep(c: Ctx, s: Tree): Ctx
    requires c.Frame?
  {
    c.(ke := c.ke + [Index(c.key, s.blk)], kept := c.kept + [s])
  }

  lemma {:induction false} FlatOne(t: Tree)
    ensures FlatAll([t]) == Flat(t) && SizeAll([t]) == Size(t) && forall b :: CountAll([t], b) == Count(t, b)
  {
    assert [t][1..] == [];
    assert FlatAll([t]) == Flat(t) + FlatAll([]) == Flat(t);
    forall b
      ensures CountAll([t], b) == Count(t, b)
    {
      assert CountAll([t], b) == Count(t, b) + CountAll([], b);
    }
  }

  lemma {:induction false} KeepMeasures(c: Ctx, s: Tree)
    requires c.Frame?
    ensures var d := Keep(c, s);
            && CtxKept(d) == CtxKept(c) + Flat(s) && CtxPend(d) == CtxPend(c) && CtxSize(d) == CtxSize(c)
            && (forall b :: CtxCount(d, b) == CtxCount(c, b) + Count(s, b))
            && FlatAll(d.kept) == FlatAll(c.kept) + Flat(s)
  {
    FlatOne(s);
    FlatAllConcat(c.kept, [s]);
    SeqAssoc(CtxKept(c.up), FlatAll(c.kept), Flat(s));
    forall b
      ensures CountAll(c.kept + [s], b) == CountAll(c.kept, b) + Count(s, b)
    {
      CountAllConcat(c.kept, [s], b);
    }
  }

  lemma {:induction false} KeepStored(m: map<nat, Node>, c: Ctx, s: Tree, h: nat, cap: nat)
    requires c.Frame? && CtxStored(m, c, s.blk, h, cap) && CtxLinks(c, Flat(s))
    requires h > 0 && Stored(m, s, h - 1, cap) && Shape(s) && Flat(s) != []
    ensures CurStored(m, Keep(c, s), h, cap) && CurLinks(Keep(c, s))
  {
    hide Flat, FlatAll, Stored, Shape, KeyOk, CtxKept, CtxPend, CtxCount, CtxSize;
    KeepMeasures(c, s);
    hide Links, Pends;
    assert Links(c.ke + [Index(c.key, s.blk)], c.kept + [s]) by {
      LinksMore(c.ke, c.kept, Index(c.key, s.blk), s);
    }
  }

  lemma {:induction false} LinksMore(es: seq<Entry>, ks: seq<Tree>, e: Entry, s: Tree)
    requires Links(es, ks) && e.Index? && e.leaf == s.blk && Shape(s) && Flat(s) != []
             && KeyOk(|ks|, e.first, Flat(s)[0])
    ensures Links(es + [e], ks + [s])
  {
  }

  // ---- a child that goes ----

  ghost function Drop(c: Ctx, key: nat): Ctx
    requires c.Frame?
  {
    c.(up := CtxRekey(c.up, |c.kept|, key))
  }

  /** The key ext4_ext_remove_idx passes upwards: the one now at the position, or the removed one. */
  function NextKey(es: seq<Entry>, pos: nat): nat
    requires pos < |es|
  {
    if pos + 1 < |es| then es[pos + 1].first else es[pos].first
  }

  function RemoveAt(n: Node, pos: nat): Node
    requires pos < |n.entries|
  {
    n.(entries := n.entries[..pos] + n.entries[pos + 1..])
  }

  lemma {:induction false} DropMeasures(c: Ctx, key: nat)
    requires c.Frame?
    ensures var d := Drop(c, key);
            && CtxKept(d) == CtxKept(c) && CtxPend(d) == CtxPend(c) && CtxSize(d) == CtxSize(c)
            && (forall b :: CtxCount(d, b) == CtxCount(c, b))
  {
    RekeyMeasures(c.up, |c.kept|, key);
  }

  lemma {:induction false} DropLinks(c: Ctx, below: seq<Entry>, key: nat)
    requires c.Frame? && CtxLinks(c, below)
    ensures CurLinks(Drop(c, key))
  {
    if |c.kept| == 0 {
      RekeyLinks(c.up, FlatAll(c.kept) + below, [], key);
      assert FlatAll(c.kept) == [];
    } else {
      SameLinks(c.up, FlatAll(c.kept) + below, FlatAll(c.kept));
    }
  }

  /** The blocks after an index and the child under it were removed. */
  ghost function Removed(m: map<nat, Node>, path: seq<PathEnt>, i: nat, child: nat): map<nat, Node>
    requires i < |path| && path[i].blk in m && 0 <= path[i].pos < |m[path[i].blk].entries|
  {
    var n := m[path[i].blk];
    RekeyAll(m[path[i].blk := RemoveAt(n, path[i].pos)] - {child}, path, i, path[i].pos,
            NextKey(n.entries, path[i].pos))
  }

  lemma {:induction false} DropStored(m: map<nat, Node>, c: Ctx, child: nat, h: nat, cap: nat, path: seq<PathEnt>,
          i: nat)
    requires c.Frame? && CtxStored(m, c, child, h, cap) && CtxPath(c, path, i + 1)
    requires forall b :: CtxCount(c, b) <= 1
    requires CtxCount(c, child) == 0
    ensures 0 <= path[i].pos < |m[path[i].blk].entries|
    ensures var m' := Removed(m, path, i, child); var d := Drop(c, NextKey(m[c.blk].entries, |c.kept|));
            && CurStored(m', d, h, cap) && CtxPath(d, path, i + 1)
            && m'.Keys == m.Keys - {child}
  {
    var n := m[c.blk];
    var p := |c.kept|;
    var key := NextKey(n.entries, p);
    assert RemoveAt(n, p).entries == c.ke + c.pe;
    var m1 := m[c.blk := RemoveAt(n, p)] - {child};
    DropUp(m, m1, c, child, h, cap);
    RekeyStored(m1, c.up, c.blk, h + 1, cap, path, i, p, key);
    RekeyPath(c.up, p, key, path, i);
    DropKids(m1, Removed(m, path, i, child), c, h, cap);
  }

  /** A frame's parts have no blocks in common with the frame itself or with block child. */
  lemma {:induction false} FrameParts(c: Ctx, child: nat)
    requires c.Frame? && (forall b :: CtxCount(c, b) <= 1) && CtxCount(c, child) == 0
    ensures forall b :: CtxCount(c.up, b) <= 1
    ensures forall b :: CtxCount(c.up, b) > 0 || CountAll(c.kept, b) > 0 || CountAll(c.pend, b) > 0 ==>
              b != c.blk && b != child
  {
    forall b
      ensures CtxCount(c.up, b) + CountAll(c.kept, b) + CountAll(c.pend, b) + (if b == c.blk then 1 else 0) <= 1
      ensures b == child ==> CtxCount(c.up, b) == CountAll(c.kept, b) == CountAll(c.pend, b) == 0
    {
      assert CtxCount(c, b) <= 1;
    }
  }

  lemma {:induction false} DropUp(m: map<nat, Node>, m1: map<nat, Node>, c: Ctx, child: nat, h: nat, cap: nat)
    requires c.Frame? && CtxStored(m, c, child, h, cap)
    requires forall b :: CtxCount(c, b) <= 1
    requires CtxCount(c, child) == 0
    requires forall b :: b in m && b != c.blk && b != child ==> b in m1 && m1[b] == m[b]
    ensures CtxStored(m1, c.up, c.blk, h + 1, cap)
    ensures StoredAll(m1, c.kept, h - 1, cap) && StoredAll(m1, c.pend, h - 1, cap)
    ensures forall b :: CtxCount(c.up, b) <= 1
  {
    hide CtxCount, CountAll, StoredAll;
    FrameParts(c, child);
    CtxFrame(m, m1, c.up, c.blk, h + 1, cap);
    StoredAllFrame(m, m1, c.kept, h - 1, cap);
    StoredAllFrame(m, m1, c.pend, h - 1, cap);
  }

  lemma {:induction false} DropKids(m1: map<nat, Node>, m': map<nat, Node>, c: Ctx, h: nat, cap: nat)
    requires c.Frame? && h > 0 && StoredAll(m1, c.kept, h - 1, cap) && StoredAll(m1, c.pend, h - 1, cap)
    requires forall b :: CtxCount(c, b) <= 1
    requires forall b :: b in m1 && !OnSpine(c.up, b) ==> b in m' && m'[b] == m1[b]
    ensures StoredAll(m', c.kept, h - 1, cap) && StoredAll(m', c.pend, h - 1, cap)
    ensures !OnSpine(c.up, c.blk)
  {
    forall b | CountAll(c.kept, b) > 0 || CountAll(c.pend, b) > 0 || b == c.blk
      ensures !OnSpine(c.up, b)
    {
      assert CtxCount(c, b) <= 1;
      if OnSpine(c.up, b) {
        SpineCount(c.up, b);
      }
    }
    StoredAllFrame(m1, m', c.kept, h - 1, cap);
    StoredAllFrame(m1, m', c.pend, h - 1, cap);
  }

  // ---- the next child ----

  /** The current node with its first pending child open. */
  ghost function Opened(c: Ctx): Ctx
    requires c.Frame? && c.pend != [] && c.pe != []
  {
    Frame(c.blk, c.ke, c.kept, c.pe[0].first, c.pe[1..], c.pend[1..], c.up)
  }

  lemma {:induction false} OpenMeasures(c: Ctx)
    requires c.Frame? && c.pend != [] && c.pe != []
    ensures var d := Opened(c);
            && CtxKept(d) == CtxKept(c) && CtxPend(c) == Flat(c.pend[0]) + CtxPend(d)
            && CtxSize(c) == Size(c.pend[0]) + CtxSize(d)
            && (forall b :: CtxCount(c, b) == CtxCount(d, b) + Count(c.pend[0], b))
  {
    SeqAssoc(Flat(c.pend[0]), FlatAll(c.pend[1..]), CtxPend(c.up));
  }

  lemma {:induction false} OpenStored(m: map<nat, Node>, c: Ctx, h: nat, cap: nat)
    requires CurStored(m, c, h, cap) && CurLinks(c) && c.pend != []
    ensures var d := Opened(c); var kid := c.pend[0];
            && CtxStored(m, d, kid.blk, h, cap) && CtxLinks(d, [])
            && Stored(m, kid, h - 1, cap) && Shape(kid) && Flat(kid) != []
            && m[c.blk].entries[|c.kept|] == Index(c.pe[0].first, kid.blk)
  {
    assert c.ke + [Index(c.pe[0].first, c.pend[0].blk)] + c.pe[1..] == c.ke + c.pe;
    assert FlatAll(c.kept) + [] == FlatAll(c.kept);
  }

  /** An inner child becomes the current node. */
  ghost function Entered(c: Ctx, kid: Tree): Ctx
    requires kid.Inner?
  {
    Frame(kid.blk, [], [], 0, kid.es, kid.kids, c)
  }

  lemma {:induction false} EnterMeasures(c: Ctx, kid: Tree)
    requires kid.Inner?
    ensures var d := Entered(c, kid);
            && CtxKept(d) == CtxKept(c) && CtxPend(d) == Flat(kid) + CtxPend(c)
               && CtxSize(d) + 1 == Size(kid) + CtxSize(c)
            && (forall b :: CtxCount(d, b) == CtxCount(c, b) + Count(kid, b))
  {
    assert CtxKept(c) + FlatAll([]) == CtxKept(c);
  }

  lemma {:induction false} EnterStored(m: map<nat, Node>, c: Ctx, kid: Tree, h: nat, cap: nat)
    requires CtxStored(m, c, kid.blk, h + 1, cap) && CtxLinks(c, []) && kid.Inner? && Stored(m, kid, h, cap)
             && Shape(kid)
    ensures CurStored(m, Entered(c, kid), h, cap) && CurLinks(Entered(c, kid))
  {
    assert [] + kid.es == kid.es;
  }

  // ---- leaving a node ----

  /** A node with nothing pending, as a tree. */
  ghost function Closed(c: Ctx): Tree
    requires c.Frame?
  {
    Inner(c.blk, c.ke, c.kept)
  }

  lemma {:induction false} CloseMeasures(c: Ctx)
    requires c.Frame? && c.pend == []
    ensures CtxKept(c) == CtxKept(c.up) + Flat(Closed(c)) && CtxPend(c) == CtxPend(c.up) && CtxSize(c) == CtxSize(c.up)
    ensures forall b :: CtxCount(c, b) == CtxCount(c.up, b) + Count(Closed(c), b)
  {
    assert CtxPend(c) == FlatAll([]) + CtxPend(c.up) == CtxPend(c.up);
  }

  lemma {:induction false} CloseStored(m: map<nat, Node>, c: Ctx, h: nat, cap: nat)
    requires CurStored(m, c, h, cap) && CurLinks(c) && c.pend == [] && c.ke != []
    ensures Stored(m, Closed(c), h, cap) && Shape(Closed(c)) && Flat(Closed(c)) != [] && CtxLinks(c.up, Flat(Closed(c)))
  {
    assert c.ke + c.pe == c.ke;
    assert FlatAll(c.kept) == Flat(c.kept[0]) + FlatAll(c.kept[1..]);
  }

  // ---- the first path ----

  /** The frames over the leaf a search path ends in. */
  ghost function Spine(t: Tree, path: seq<PathEnt>, k: nat, up: Ctx): Ctx
    requires OnPath(t, path, k) && Shape(t)
    decreases t
  {
    if t.Leaf? then up else
      var p := path[k].pos;
      Spine(t.kids[p], path, k + 1,
              Frame(t.blk, t.es[..p], t.kids[..p], t.es[p].first, t.es[p + 1..], t.kids[p + 1..], up))
  }

  ghost function SpineFrame(t: Tree, p: nat, up: Ctx): Ctx
    requires Shape(t) && t.Inner? && p < |t.kids|
  {
    Frame(t.blk, t.es[..p], t.kids[..p], t.es[p].first, t.es[p + 1..], t.kids[p + 1..], up)
  }

  lemma {:induction false} SpineStep(m: map<nat, Node>, t: Tree, p: nat, up: Ctx, h: nat, cap: nat)
    requires Shape(t) && t.Inner? && p < |t.kids| && Stored(m, t, h, cap)
    requires CtxStored(m, up, t.blk, h + 1, cap) && CtxLinks(up, Flat(t))
    ensures h > 0 && CtxStored(m, SpineFrame(t, p, up), t.kids[p].blk, h, cap)
    ensures CtxLinks(SpineFrame(t, p, up), Flat(t.kids[p]))
    ensures CtxKept(SpineFrame(t, p, up)) == CtxKept(up) + FlatAll(t.kids[..p])
    ensures CtxPend(SpineFrame(t, p, up)) == FlatAll(t.kids[p + 1..]) + CtxPend(up)
  {
    hide FlatAll;
    var c := SpineFrame(t, p, up);
    assert c.ke + [Index(c.key, t.kids[p].blk)] + c.pe == t.es;
    SpineFirst(t, p);
    assert forall i :: 0 <= i < |c.pend| ==> c.pend[i] == t.kids[p + 1 + i] && c.pe[i] == t.es[p + 1 + i];
    SameLinks(up, Flat(t), FlatAll(c.kept) + Flat(t.kids[p]));
  }

  lemma {:induction false} SpineFirst(t: Tree, p: nat)
    requires t.Inner? && p < |t.kids| && Flat(t.kids[p]) != []
    ensures var x := FlatAll(t.kids[..p]) + Flat(t.kids[p]); Flat(t) != [] && x != [] && x[0] == Flat(t)[0]
  {
    FlatAllAt(t.kids, p);
    SeqAssoc(FlatAll(t.kids[..p]), Flat(t.kids[p]), FlatAll(t.kids[p + 1..]));
  }

  lemma {:induction false} SpineStored(m: map<nat, Node>, t: Tree, path: seq<PathEnt>, k: nat, up: Ctx, h: nat,
          cap: nat)
    requires OnPath(t, path, k) && Shape(t) && Stored(m, t, h, cap)
    requires CtxStored(m, up, t.blk, h + 1, cap) && CtxLinks(up, Flat(t))
    ensures var c := Spine(t, path, k, up); var leaf := SubAt(t, path, k, |path| - 1);
            CtxStored(m, c, leaf.blk, 1, cap) && CtxLinks(c, Flat(leaf)) && leaf.Leaf? && Stored(m, leaf, 0, cap)
    decreases t
  {
    if t.Inner? {
      var p := path[k].pos;
      SpineStep(m, t, p, up, h, cap);
      SpineStored(m, t.kids[p], path, k + 1, SpineFrame(t, p, up), h - 1, cap);
    }
  }

  lemma {:induction false} SpineFlat(t: Tree, path: seq<PathEnt>, k: nat, up: Ctx)
    requires OnPath(t, path, k) && Shape(t)
    ensures var c := Spine(t, path, k, up);
            && CtxKept(c) == CtxKept(up) + Bef(t, path, k, |path| - 1)
            && CtxPend(c) == Aft(t, path, k, |path| - 1) + CtxPend(up)
    decreases t
  {
    if t.Inner? {
      var p := path[k].pos;
      var f := SpineFrame(t, p, up);
      SpineFlat(t.kids[p], path, k + 1, f);
      SeqAssoc(CtxKept(up), FlatAll(t.kids[..p]), Bef(t.kids[p], path, k + 1, |path| - 1));
      SeqAssoc(Aft(t.kids[p], path, k + 1, |path| - 1), FlatAll(t.kids[p + 1..]), CtxPend(up));
    } else {
      assert CtxKept(up) + [] == CtxKept(up);
    }
  }

  lemma {:induction false} SpineCounts(t: Tree, path: seq<PathEnt>, k: nat, up: Ctx, b: nat)
    requires OnPath(t, path, k) && Shape(t)
    ensures CtxCount(Spine(t, path, k, up), b) + (if path[|path| - 1].blk == b then 1 else 0) ==
            CtxCount(up, b) + Count(t, b)
    decreases t
  {
    if t.Inner? {
      var p := path[k].pos;
      CountAllAt(t.kids, p, b);
      SpineCounts(t.kids[p], path, k + 1, SpineFrame(t, p, up), b);
    }
  }

  lemma {:induction false} SpinePath(t: Tree, path: seq<PathEnt>, k: nat, up: Ctx)
    requires OnPath(t, path, k) && Shape(t) && CtxPath(up, path, k)
    requires t.blk == 0 <==> k == 0
    requires forall b :: CtxCount(up, b) + Count(t, b) <= 1
    requires k > 0 ==> Count(t, 0) == 0
    ensures CtxPath(Spine(t, path, k, up), path, |path| - 1)
    decreases t
  {
    if t.Inner? {
      var p := path[k].pos;
      var f := SpineFrame(t, p, up);
      forall b
        ensures CtxCount(f, b) + Count(t.kids[p], b) == CtxCount(up, b) + Count(t, b)
      {
        CountAllAt(t.kids, p, b);
      }
      assert Count(t.kids[p], t.kids[p].blk) > 0;
      assert Count(t.kids[p], 0) == 0 by {
        assert CtxCount(f, 0) + Count(t.kids[p], 0) <= 1;
        if k == 0 {
          assert CtxCount(f, 0) >= 1;
        }
      }
      SpinePath(t.kids[p], path, k + 1, f);
    }
  }
}
