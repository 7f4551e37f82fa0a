/** Inserting into the leaf a search ended in, seen on the whole tree. */
module ExtentInsert {
  import opened ExtentEntries
  import opened ExtentTree
  import opened ExtentPath
  import opened ExtentLeaf
  import opened ExtentHeld

  /** Keys are corrected exactly when the first position of the leaf was written to. */
  predicate FixFor(cur: int, a: Action) {
    a.Add? && cur <= 0
  }

  /** The blocks after ext4_ext_insert_leaf took a branch that changes the leaf. */
  ghost predicate LeafStep(m: map<nat, Node>, m': map<nat, Node>, path: seq<PathEnt>, es: seq<Entry>, fix: bool)
    requires Walkable(m, path) && es != []
  {
    var d := |path| - 1;
    var m1 := m[path[d].blk := m[path[d].blk].(entries := es)];
    Walkable(m1, path) && KeysSet(m1, m', path, d, fix, es[0].first)
  }

  /** What ext4_ext_insert_leaf reports, and what it does to the blocks. */
  ghost predicate LeafOutcome(m: map<nat, Node>, m': map<nat, Node>, path: seq<PathEnt>, x: Entry, noCombine: bool,
                              err: Err, needSplit: bool)
    requires Walkable(m, path) && IsExtent(x)
    requires var n := m[path[|path| - 1].blk]; Extents(n.entries) && -1 <= path[|path| - 1].pos < |n.entries|
  {
    var n := m[path[|path| - 1].blk];
    var cur := path[|path| - 1].pos;
    if cur >= 0 && x.first == n.entries[cur].first then
      err == EIO && !needSplit && m' == m
    else
      var a := ActionFor(n.entries, cur, n.max, x, noCombine);
      var es := After(n.entries, cur, x, a);
      && needSplit == a.Split?
      && err == (if a.Split? then EIO else EOK)
      && (a.Split? ==> m' == m)
      && (!a.Split? ==> es != [] && LeafStep(m, m', path, es, FixFor(cur, a)))
  }

  lemma {:induction false} WalkableLeaf(m: map<nat, Node>, path: seq<PathEnt>, es: seq<Entry>)
    requires Walkable(m, path)
    ensures var d := |path| - 1; Walkable(m[path[d].blk := m[path[d].blk].(entries := es)], path)
  {
  }

  /** Writing only the leaf is a step that sets no key. */
  lemma {:induction false} KeysKept(m: map<nat, Node>, path: seq<PathEnt>)
    requires Walkable(m, path)
    ensures forall es {:trigger m[path[|path| - 1].blk].(entries := es)} :: es != [] ==>
              LeafStep(m, m[path[|path| - 1].blk := m[path[|path| - 1].blk].(entries := es)], path, es, false)
  {
  }

  /** The new content of a leaf keeps its first extent, unless it is the leftmost leaf. */
  lemma {:induction false} AfterFirst(es: seq<Entry>, cur: int, max: nat, x: Entry, noCombine: bool, leftmost: bool)
    requires AtPos(es, cur, x.first) && IsExtent(x)
    requires Extents(es)
    requires cur >= 0 ==> End(es[cur]) <= x.first || End(x) <= es[cur].first
    requires leftmost || (es != [] && es[0].first <= x.first)
    requires !ActionFor(es, cur, max, x, noCombine).Split?
    ensures var a := ActionFor(es, cur, max, x, noCombine);
            var es' := After(es, cur, x, a);
            && es' != []
            && Extents(es')
            && (|| (es != [] && es'[0].first == es[0].first && End(es'[0]) >= End(es[0]))
                || (leftmost && FixFor(cur, a))
                || (leftmost && es != [] && End(es'[0]) >= End(es[0])))
  {
    match ActionFor(es, cur, max, x, noCombine)
    case Append =>
    case Prepend =>
      assert cur == 0;
    case Add(at) =>
      if at > 0 {
        assert After(es, cur, x, Add(at))[0] == es[0];
      }
  }

  lemma {:induction false} ApartLeaf(t: Tree, path: seq<PathEnt>, x: Entry, leaf: Tree, cur: int)
    requires OnPath(t, path, 0) && Apart(x, Flat(t))
    requires leaf == SubAt(t, path, 0, |path| - 1) && leaf.Leaf? && -1 <= cur < |leaf.es|
    ensures cur >= 0 ==> leaf.es[cur].Extent? && (End(leaf.es[cur]) <= x.first || End(x) <= leaf.es[cur].first)
  {
    var d := |path| - 1;
    FlatPath(t, path, 0, d);
    if cur >= 0 {
      assert Flat(t)[|Bef(t, path, 0, d)| + cur] == leaf.es[cur];
    }
  }

  /** The new leaf content fits under the old keys, or the keys are corrected. */
  lemma {:induction false} AfterFits(t: Tree, path: seq<PathEnt>, x: Entry, max: nat, noCombine: bool, leaf: Tree)
    requires Shape(t) && OnPath(t, path, 0) && Found(t, path, 0, x.first) && IsExtent(x)
    requires Apart(x, Flat(t))
    requires leaf == SubAt(t, path, 0, |path| - 1) && leaf.Leaf?
    requires AtPos(leaf.es, path[|path| - 1].pos, x.first)
    requires !ActionFor(leaf.es, path[|path| - 1].pos, max, x, noCombine).Split?
    ensures Extents(leaf.es)
    ensures var d := |path| - 1;
            var a := ActionFor(leaf.es, path[d].pos, max, x, noCombine);
            Fits(leaf, Leaf(leaf.blk, After(leaf.es, path[d].pos, x, a)), AllZero(path, 0, d), FixFor(path[d].pos, a))
  {
    var d := |path| - 1;
    SubOnPath(t, path, 0, d);
    SearchAfter(t, path, 0, x.first);
    SearchBefore(t, path, 0, x.first);
    BefEmpty(t, path, 0, d);
    var cur := path[d].pos;
    ApartLeaf(t, path, x, leaf, cur);
    AfterFirst(leaf.es, cur, max, x, noCombine, AllZero(path, 0, d));
  }

  /** The position of a leaf on its path, by its own entries. */
  lemma {:induction false} FoundLeaf(t: Tree, path: seq<PathEnt>, k: nat, b: nat)
    requires Found(t, path, k, b) && OnPath(t, path, k)
    ensures AtPos(SubAt(t, path, k, |path| - 1).es, path[|path| - 1].pos, b)
    decreases t
  {
    if t.Inner? {
      FoundOnPath(t.kids[path[k].pos], path, k + 1, b);
      FoundLeaf(t.kids[path[k].pos], path, k + 1, b);
    }
  }

  /** The whole sequence of extents after the leaf changed. */
  lemma {:induction false} AfterFlat(t: Tree, path: seq<PathEnt>, x: Entry, max: nat, noCombine: bool, es': seq<Entry>)
    requires Shape(t) && OnPath(t, path, 0) && Found(t, path, 0, x.first) && IsExtent(x)
    requires Sorted(Flat(t)) && Apart(x, Flat(t))
    requires var d := |path| - 1; var leaf := SubAt(t, path, 0, d);
             && leaf.Leaf? && AtPos(leaf.es, path[d].pos, x.first)
             && Extents(leaf.es)
             && !ActionFor(leaf.es, path[d].pos, max, x, noCombine).Split?
             && es' == After(leaf.es, path[d].pos, x, ActionFor(leaf.es, path[d].pos, max, x, noCombine))
    ensures var d := |path| - 1;
            var f' := Bef(t, path, 0, d) + es' + Aft(t, path, 0, d);
            Sorted(f') && View(f') == Inserted(Flat(t), x, noCombine) && Grows(Flat(t), f', x, noCombine)
  {
    var d := |path| - 1;
    var leaf := SubAt(t, path, 0, d);
    hide Grows;
    SearchAfter(t, path, 0, x.first);
    SearchBefore(t, path, 0, x.first);
    FlatPath(t, path, 0, d);
    AftEmpty(t, path, 0, x.first);
    var a, b := Bef(t, path, 0, d), Aft(t, path, 0, d);
    ActionEffect(a, leaf.es, b, path[d].pos, max, x, noCombine, Flat(t), a + es' + b);
    ActionGrows(a, leaf.es, b, path[d].pos, max, x, noCombine, Flat(t));
  }

  /** Only an empty root leaf is empty. */
  lemma {:induction false} AftEmpty(t: Tree, path: seq<PathEnt>, k: nat, b: nat)
    requires Shape(t) && OnPath(t, path, k) && Found(t, path, k, b)
    ensures var d := |path| - 1;
            SubAt(t, path, k, d).es == [] ==> Aft(t, path, k, d) == []
  {
    var d := |path| - 1;
    SearchBefore(t, path, k, b);
    FlatPath(t, path, k, d);
  }

  lemma {:induction false} LeafBlock(m: map<nat, Node>, t: Tree, h: nat, cap: nat, path: seq<PathEnt>)
    requires Stored(m, t, h, cap) && Shape(t) && OnPath(t, path, 0) && path != []
    requires SubAt(t, path, 0, |path| - 1).Leaf?
    ensures path[|path| - 1].blk in m && Count(SubAt(t, path, 0, |path| - 1), path[|path| - 1].blk) > 0
  {
    PathNode(m, t, h, cap, path, 0, |path| - 1);
  }

  lemma {:induction false} KeysSetRewritten(m: map<nat, Node>, m': map<nat, Node>, t: Tree, h: nat, cap: nat,
          path: seq<PathEnt>, es: seq<Entry>, fix: bool)
    requires Stored(m, t, h, cap) && Shape(t) && OnPath(t, path, 0) && Walkable(m, path) && es != []
    requires LeafStep(m, m', path, es, fix)
    requires SubAt(t, path, 0, |path| - 1).Leaf?
    ensures Rewritten(m, m', t, path, 0, |path| - 1, Leaf(path[|path| - 1].blk, es), fix)
    ensures path[|path| - 1].blk in m' && m'[path[|path| - 1].blk] == m[path[|path| - 1].blk].(entries := es)
    ensures m'.Keys == m.Keys
  {
    hide Stored, Shape, Count;
    var d := |path| - 1;
    LeafBlock(m, t, h, cap, path);
    assert Flat(Leaf(path[d].blk, es)) == es;
    forall b | b in m && Count(t, b) > 0 && Count(SubAt(t, path, 0, d), b) == 0
                 && (forall j :: 0 <= j < d ==> path[j].blk != b)
      ensures b in m' && m'[b] == m[b]
    {
      assert b != path[d].blk;
    }
  }

  /** Putting a leaf content of the right size and first extent keeps the tree proper. */
  lemma {:induction false} PutLeafHeld(m: map<nat, Node>, m': map<nat, Node>, t: Tree, cap: nat, path: seq<PathEnt>,
                                       es: seq<Entry>, fix: bool)
    requires Held(m, t, cap) && OnPath(t, path, 0) && Walkable(m, path) && es != []
    requires LeafStep(m, m', path, es, fix)
    requires |es| <= MaxOf(path[|path| - 1].blk, cap)
    requires Fits(SubAt(t, path, 0, |path| - 1), Leaf(path[|path| - 1].blk, es), AllZero(path, 0, |path| - 1), fix)
    requires Sorted(Bef(t, path, 0, |path| - 1) + es + Aft(t, path, 0, |path| - 1))
    ensures var d := |path| - 1;
            var t' := Put(t, path, 0, d, Leaf(path[d].blk, es), fix);
            && Held(m', t', cap)
            && Flat(t') == Bef(t, path, 0, d) + es + Aft(t, path, 0, d)
            && (NoLeak(m, t) ==> NoLeak(m', t'))
    ensures m'.Keys == m.Keys
  {
    var d := |path| - 1;
    var h := m[0].depth;
    var s := Leaf(path[d].blk, es);
    PathNode(m, t, h, cap, path, 0, d);
    KeysSetRewritten(m, m', t, h, cap, path, es, fix);
    assert Stored(m', s, h - d, cap);
    PutStored(m, m', t, h, cap, path, 0, d, s, fix);
    PutShape(t, path, 0, d, s, fix);
    PutFlat(t, path, 0, d, s, fix);
    var t' := Put(t, path, 0, d, s, fix);
    forall b
      ensures Count(t', b) == Count(t, b)
    {
      PutCount(t, path, 0, d, s, fix, b);
    }
    RootDepth(m', t', h, cap);
  }

  /** ext4_ext_insert_leaf keeps the tree proper and inserts x, or misplaces it. */
  lemma {:induction false} LeafDone(m: map<nat, Node>, m': map<nat, Node>, t: Tree, cap: nat, path: seq<PathEnt>,
          x: Entry, noCombine: bool, n: Node, a: Action, es: seq<Entry>)
    requires Held(m, t, cap) && OnPath(t, path, 0) && Found(t, path, 0, x.first)
    requires IsExtent(x) && Apart(x, Flat(t))
    requires Walkable(m, path) && n == m[path[|path| - 1].blk]
    requires && AtPos(n.entries, path[|path| - 1].pos, x.first)
             && Extents(n.entries)
             && a == ActionFor(n.entries, path[|path| - 1].pos, n.max, x, noCombine) && !a.Split?
             && es == After(n.entries, path[|path| - 1].pos, x, a) && es != []
    requires LeafStep(m, m', path, es, FixFor(path[|path| - 1].pos, a))
    ensures var d := |path| - 1;
            var t' := Put(t, path, 0, d, Leaf(path[d].blk, es), FixFor(path[d].pos, a));
            && Held(m', t', cap)
            && View(Flat(t')) == Inserted(Flat(t), x, noCombine) && Grows(Flat(t), Flat(t'), x, noCombine)
            && (NoLeak(m, t) ==> NoLeak(m', t'))
    ensures m'.Keys == m.Keys
  {
    hide Grows, View, Inserted, Apart, Extents, Sorted, Found, Count, NoLeak;
    var d := |path| - 1;
    PathNode(m, t, m[0].depth, cap, path, 0, d);
    var leaf := SubAt(t, path, 0, d);
    AfterFits(t, path, x, n.max, noCombine, leaf);
    AfterFlat(t, path, x, n.max, noCombine, es);
    PutLeafHeld(m, m', t, cap, path, es, FixFor(path[d].pos, a));
  }

  lemma {:induction false} RootDepth(m: map<nat, Node>, t: Tree, h: nat, cap: nat)
    requires Stored(m, t, h, cap)
    ensures t.blk in m && m[t.blk].depth == h
  {
  }
}
