/** The whole truncate walk: what holds before each iteration of ext4_extent_remove_space. */
module ExtentTrim {
  import opened ExtentEntries
  import opened ExtentTree
  import opened ExtentPath
  import opened ExtentLeaf
  import opened ExtentHeld
  import opened ExtentSearch
  import opened ExtentCut
  import opened ExtentZip
  import opened ExtentWalk
  import opened ExtentSplitDone

  /** How often a block was given back. */
  ghost function Occ(s: seq<nat>, b: nat): nat {
    if s == [] then 0 else Occ(s[..|s| - 1], b) + if s[|s| - 1] == b then 1 else 0
  }

  lemma {:induction false} OccAdd(s: seq<nat>, x: nat, b: nat)
    ensures Occ(s + [x], b) == Occ(s, b) + if x == b then 1 else 0
  {
    assert (s + [x])[..|s|] == s;
  }

  /** Every block of the old tree is either still used, once, or was given back, once. */
  ghost predicate Accounts(m0: map<nat, Node>, t0: Tree, m: map<nat, Node>, c: Ctx, leaf: int, gone: seq<nat>) {
    && (forall b: nat :: CtxCount(c, b) + (if b == leaf then 1 else 0) + Occ(gone, b) == Count(t0, b))
    && (forall b: nat :: b in m <==> b in m0 && Occ(gone, b) == 0)
    && (forall b: nat :: Count(t0, b) <= if b in m0 then 1 else 0)
  }

  /** Kept extents are the ones below from; those given back and those pending are the rest. */
  ghost predicate Flows(f: seq<Entry>, from: nat, c: Ctx, es: seq<Entry>, lost: seq<Entry>)
    requires Extents(f) && Extents(es)
  {
    && CtxKept(c) + LowAll(es, from) == LowAll(f, from)
    && lost + (HighAll(es, from) + CtxPend(c)) == HighAll(f, from)
    && Sorted(CtxPend(c))
    && forall i {:trigger CtxPend(c)[i]} :: 0 <= i < |CtxPend(c)| ==> from <= CtxPend(c)[i].first
  }

  /** Before the leaf at the end of the path is cut. */
  ghost predicate AtLeaf(m: map<nat, Node>, cap: nat, path: seq<PathEnt>, c: Ctx, es: seq<Entry>, from: nat) {
    && path != []
    && var e := path[|path| - 1];
    && e.blk in m && m[e.blk] == Node(es, MaxOf(e.blk, cap), 0) && |es| <= MaxOf(e.blk, cap)
    && CtxStored(m, c, e.blk, 1, cap) && CtxPath(c, path, |path| - 1) && (e.blk == 0 <==> |path| == 1)
    && Sorted(es) && 0 <= e.pos < |es|
    && (forall i :: 0 <= i < e.pos ==> End(es[i]) <= from) && from < End(es[e.pos])
    && (forall i :: e.pos < i < |es| ==> from <= es[i].first)
    && CtxLinks(c, if LowAll(es, from) == [] then [] else es)
  }

  /** Before an inner node at level i is looked at. */
  ghost predicate AtNode(m: map<nat, Node>, cap: nat, path: seq<PathEnt>, i: nat, c: Ctx) {
    i + 1 < |path| && CurStored(m, c, |path| - 1 - i, cap) && CurLinks(c) && CtxPath(c, path, i + 1)
  }

  ghost predicate Walk(m0: map<nat, Node>, t0: Tree, m: map<nat, Node>, cap: nat, path: seq<PathEnt>, i: int, c: Ctx,
                       from: nat, gone: seq<nat>, lost: seq<Entry>)
  {
    && path != [] && -1 <= i < |path| && Extents(Flat(t0))
    && if i == |path| - 1 then
         && path[i].blk in m
         && var es := m[path[i].blk].entries;
         && AtLeaf(m, cap, path, c, es, from)
         && Accounts(m0, t0, m, c, path[i].blk, gone) && Flows(Flat(t0), from, c, es, lost)
       else if |path| == 1 then
         && 0 in m && m[0] == Node(LowAll(Flat(t0), from), ROOT_MAX, 0) && |m[0].entries| <= ROOT_MAX
         && Accounts(m0, t0, m, Top, 0, gone) && lost == HighAll(Flat(t0), from)
       else
         && Accounts(m0, t0, m, c, -1, gone) && Flows(Flat(t0), from, c, [], lost)
         && AtNode(m, cap, path, if i < 0 then 0 else i, c)
         && (i < 0 ==> c.pend == [])
  }

  // ---- the search ----

  /** A search finds b exactly when it is mapped. */
  lemma {:induction false} SearchMapped(t: Tree, path: seq<PathEnt>, b: nat, leaf: Tree)
    requires Shape(t) && Sorted(Flat(t)) && Found(t, path, 0, b) && OnPath(t, path, 0)
    requires leaf == SubAt(t, path, 0, |path| - 1)
    ensures leaf.Leaf? && AtPos(leaf.es, path[|path| - 1].pos, b)
    ensures var pos := path[|path| - 1].pos;
            if pos >= 0 && Covers(leaf.es[pos], b)
            then b in View(Flat(t)) && View(Flat(t))[b] == leaf.es[pos].start + (b - leaf.es[pos].first)
            else b !in View(Flat(t))
  {
    hide View;
    var d := |path| - 1;
    SearchAfter(t, path, 0, b);
    SearchBefore(t, path, 0, b);
    FlatPath(t, path, 0, d);
    FoundSub(t, path, 0, d, b);
    var x, y := Bef(t, path, 0, d), Aft(t, path, 0, d);
    SeqMapped(x, leaf.es, y, path[d].pos, b);
  }

  lemma {:induction false} SeqMapped(x: seq<Entry>, es: seq<Entry>, y: seq<Entry>, pos: int, b: nat)
    requires Sorted(x + es + y) && AtPos(es, pos, b)
    requires y != [] ==> b < y[0].first
    requires x != [] ==> es != [] && es[0].first <= b
    requires x + es + y != [] ==> es != []
    ensures var f := x + es + y;
            if pos >= 0 && Covers(es[pos], b) then b in View(f) && View(f)[b] == es[pos].start + (b - es[pos].first)
            else b !in View(f)
  {
    hide View;
    var f := x + es + y;
    if pos >= 0 {
      assert f[|x| + pos] == es[pos];
      if Covers(es[pos], b) {
        ViewAt(f, |x| + pos, b);
        return;
      }
    }
    ViewDomain(f, b);
    forall i | 0 <= i < |f|
      ensures !Covers(f[i], b)
    {
      if i == |x| + pos {
        assert f[i] == es[pos];
      } else {
        NotElsewhere(x, es, y, pos, b, i);
      }
    }
  }

  lemma {:induction false} NotElsewhere(x: seq<Entry>, es: seq<Entry>, y: seq<Entry>, pos: int, b: nat, i: nat)
    requires Sorted(x + es + y) && AtPos(es, pos, b) && es != []
    requires y != [] ==> b < y[0].first
    requires x != [] ==> es[0].first <= b
    requires i < |x + es + y| && i != |x| + pos
    ensures !Covers((x + es + y)[i], b)
  {
    var f := x + es + y;
    if i < |x| {
      assert f[|x|] == es[0];
    } else if i < |x| + |es| {
      var j := i - |x|;
      assert f[i] == es[j] && f[|x| + pos] == es[pos];
      if j > pos {
        assert f[|x| + pos + 1] == es[pos + 1];
      }
    } else {
      assert f[|x| + |es|] == y[0];
    }
  }

  // ---- the start ----

  lemma {:induction false} WalkStart(m: map<nat, Node>, t: Tree, cap: nat, path: seq<PathEnt>, from: nat)
    returns (c: Ctx)
    requires Held(m, t, cap) && Found(t, path, 0, from) && OnPath(t, path, 0) && path != []
    requires path[|path| - 1].blk in m
    requires var es := m[path[|path| - 1].blk].entries;
             var pos := path[|path| - 1].pos; 0 <= pos < |es| && Covers(es[pos], from)
    ensures Walk(m, t, m, cap, path, |path| - 1, c, from, [], [])
  {
    hide Shape, View, Sorted, LowAll, HighAll, Bef, Aft, AllZero, Stored, CountAll, Flows, CtxLinks, CtxStored, CtxPath,
        AtLeaf, CtxCount, Count, Found, OnPath, Flat, CtxKept, CtxPend, Covers, Extents, FlatAll;
    var d := |path| - 1;
    SubFacts(m, t, cap, path, from, d);
    var leaf := SubAt(t, path, 0, d);
    StoredNode(m, leaf, 0, cap);
    c := Spine(t, path, 0, Top);
    StartNode(m, t, cap, path, from, leaf, c);
    StartCounts(m, t, path, c);
  }

  lemma {:induction false} StartCounts(m: map<nat, Node>, t: Tree, path: seq<PathEnt>, c: Ctx)
    requires OnPath(t, path, 0) && Shape(t) && c == Spine(t, path, 0, Top)
    requires forall b :: Count(t, b) <= if b in m then 1 else 0
    ensures Accounts(m, t, m, c, path[|path| - 1].blk, [])
  {
    forall b
      ensures CtxCount(c, b) + (if path[|path| - 1].blk == b then 1 else 0) + Occ([], b) == Count(t, b)
    {
      SpineCounts(t, path, 0, Top, b);
    }
  }

  lemma {:induction false} StartNode(m: map<nat, Node>, t: Tree, cap: nat, path: seq<PathEnt>, from: nat, leaf: Tree,
          c: Ctx)
    requires Held(m, t, cap) && Found(t, path, 0, from) && OnPath(t, path, 0)
    requires leaf == SubAt(t, path, 0, |path| - 1) && leaf.Leaf? && path[|path| - 1].blk == leaf.blk
             && (leaf.blk == 0 <==> |path| == 1)
    requires leaf.blk in m && m[leaf.blk] == Node(leaf.es, MaxOf(leaf.blk, cap), 0)
    requires var pos := path[|path| - 1].pos; 0 <= pos < |leaf.es| && Covers(leaf.es[pos], from)
    requires c == Spine(t, path, 0, Top)
    ensures Extents(Flat(t)) && Extents(leaf.es)
    ensures AtLeaf(m, cap, path, c, leaf.es, from) && Flows(Flat(t), from, c, leaf.es, [])
  {
    hide Shape, View, LowAll, HighAll, Bef, Aft, AllZero, CountAll, Flows, FlatAll;
    var d := |path| - 1;
    SpineStored(m, t, path, 0, Top, m[0].depth, cap);
    SpineFlat(t, path, 0, Top);
    SpinePath(t, path, 0, Top);
    FlatPath(t, path, 0, d);
    StartFlows(Bef(t, path, 0, d), leaf.es, Aft(t, path, 0, d), path[d].pos, from, Flat(t), c);
    if LowAll(leaf.es, from) == [] {
      SameLinks(c, Flat(leaf), []);
    }
  }

  lemma {:induction false} StartFlows(x: seq<Entry>, es: seq<Entry>, y: seq<Entry>, pos: nat, from: nat, f: seq<Entry>,
          c: Ctx)
    requires f == x + es + y && Sorted(f) && pos < |es| && Covers(es[pos], from)
    requires CtxKept(c) == [] + x && CtxPend(c) == y + []
    ensures Sorted(es) && Extents(f) && Flows(f, from, c, es, [])
    ensures forall i :: 0 <= i < pos ==> End(es[i]) <= from
    ensures forall i :: pos < i < |es| ==> from <= es[i].first
  {
    hide Low, High, LowAll, HighAll, CtxKept, CtxPend, Covers;
    assert CtxKept(c) == x && CtxPend(c) == y;
    SortedParts(x + es, y);
    SortedParts(x, es);
    StartCut(x, es, y, pos, from);
    assert [] + (HighAll(es, from) + y) == HighAll(es, from) + y;
    StartSides(x, es, y, pos, from);
  }

  lemma {:induction false} StartCut(x: seq<Entry>, es: seq<Entry>, y: seq<Entry>, pos: nat, from: nat)
    requires Sorted(x + es + y) && Sorted(es) && pos < |es| && Covers(es[pos], from)
    ensures LowAll(x + es + y, from) == x + LowAll(es, from)
    ensures HighAll(x + es + y, from) == HighAll(es, from) + y
  {
    hide Low, High, LowAll, HighAll, Sorted;
    var lo, hi := es[..pos], es[pos + 1..];
    assert es == lo + [es[pos]] + hi;
    CutAround(lo, es[pos], hi, from);
    assert x + es + y == (x + lo) + [es[pos]] + (hi + y);
    CutAround(x + lo, es[pos], hi + y, from);
    SeqAssoc(x, lo, Low(es[pos], from));
    SeqAssoc(High(es[pos], from), hi, y);
  }

  lemma {:induction false} StartSides(x: seq<Entry>, es: seq<Entry>, y: seq<Entry>, pos: nat, from: nat)
    requires Sorted(x + es + y) && pos < |es| && Covers(es[pos], from)
    ensures forall i {:trigger y[i]} :: 0 <= i < |y| ==> IsExtent(y[i]) && from <= y[i].first
    ensures forall i :: 0 <= i < pos ==> es[i].Extent? && End(es[i]) <= from
    ensures forall i :: pos < i < |es| ==> from <= es[i].first
  {
    var f := x + es + y;
    forall i | pos < i < |es|
      ensures from <= es[i].first
    {
      assert f[|x| + i] == es[i] && f[|x| + pos] == es[pos];
    }
    forall i | 0 <= i < pos
      ensures es[i].Extent? && End(es[i]) <= from
    {
      assert f[|x| + i] == es[i] && f[|x| + pos] == es[pos];
    }
    forall i | 0 <= i < |y|
      ensures IsExtent(y[i]) && from <= y[i].first
    {
      assert f[|x| + |es| + i] == y[i] && f[|x| + pos] == es[pos];
    }
  }

  // ---- a leaf ----

  /** Cutting a leaf from its position on: at most the extent there is shortened. */
  lemma {:induction false} LeafLow(es: seq<Entry>, pos: nat, from: nat)
    requires Extents(es) && pos < |es|
    requires (forall i :: 0 <= i < pos ==> End(es[i]) <= from) && from < End(es[pos])
    requires forall i :: pos < i < |es| ==> from <= es[i].first
    ensures LowAll(es, from) == es[..pos] + Low(es[pos], from)
    ensures HighAll(es, from) == High(es[pos], from) + es[pos + 1..]
    ensures Extents(LowAll(es, from)) && |LowAll(es, from)| <= |es|
    ensures LowAll(es, from) != [] ==> LowAll(es, from)[0].first == es[0].first
    ensures LowAll(es, from) != [] && pos > 0 ==> LowAll(es, from)[0] == es[0]
  {
    var lo, hi := es[..pos], es[pos + 1..];
    LeafParts(es, pos, from);
    assert Extents(Low(es[pos], from)) && |Low(es[pos], from)| <= 1;
    hide LowAll, HighAll, High;
    assert pos > 0 ==> (lo + Low(es[pos], from))[0] == es[0];
  }

  lemma {:induction false} LeafParts(es: seq<Entry>, pos: nat, from: nat)
    requires Extents(es) && pos < |es|
    requires (forall i :: 0 <= i < pos ==> End(es[i]) <= from) && from < End(es[pos])
    requires forall i :: pos < i < |es| ==> from <= es[i].first
    ensures LowAll(es, from) == es[..pos] + Low(es[pos], from)
    ensures HighAll(es, from) == High(es[pos], from) + es[pos + 1..]
  {
    hide Low, High, LowAll, HighAll;
    var lo, hi := es[..pos], es[pos + 1..];
    assert es == lo + [es[pos]] + hi;
    ExtentsOf(lo, es[pos], hi, from);
    CutConcat(lo + [es[pos]], hi, from);
    CutConcat(lo, [es[pos]], from);
    AllLow(lo, from);
    AllHigh(hi, from);
    CutOne(es[pos], from);
    assert lo + Low(es[pos], from) + [] == lo + Low(es[pos], from);
    assert [] + High(es[pos], from) + hi == High(es[pos], from) + hi;
  }

  lemma {:induction false} PathBump(c: Ctx, s: Tree, path: seq<PathEnt>, n: nat)
    requires c.Frame? && CtxPath(c, path, n)
    ensures CtxPath(Keep(c, s), path[n - 1 := PathEnt(path[n - 1].blk, path[n - 1].pos + 1)], n)
  {
    PathPrefix(c.up, path, path[n - 1 := PathEnt(path[n - 1].blk, path[n - 1].pos + 1)], n - 1);
  }

  lemma {:induction false} PathPrefix(c: Ctx, path: seq<PathEnt>, path': seq<PathEnt>, n: nat)
    requires CtxPath(c, path, n) && n <= |path'| && forall j :: 0 <= j < n ==> path'[j] == path[j]
    ensures CtxPath(c, path', n)
    decreases c
  {
    if c.Frame? {
      PathPrefix(c.up, path, path', n - 1);
    }
  }

  /** The walk goes on from a node one of whose children was kept or dropped. */
  lemma {:induction false} FlowsOn(f: seq<Entry>, from: nat, c: Ctx, es: seq<Entry>, lost: seq<Entry>, c': Ctx)
    requires Extents(f) && Extents(es) && Flows(f, from, c, es, lost)
    requires CtxKept(c') == CtxKept(c) + LowAll(es, from) && CtxPend(c') == CtxPend(c)
    ensures Flows(f, from, c', [], lost + HighAll(es, from))
  {
    SeqAssoc(lost, HighAll(es, from), CtxPend(c));
    assert CtxKept(c') + [] == CtxKept(c');
    assert [] + CtxPend(c') == CtxPend(c');
  }

  lemma {:induction false} LeafAlone(m0: map<nat, Node>, t0: Tree, m: map<nat, Node>, c: Ctx, leaf: nat, gone: seq<nat>)
    requires Accounts(m0, t0, m, c, leaf, gone)
    ensures CtxCount(c, leaf) == 0 && Occ(gone, leaf) == 0 && !OnSpine(c, leaf)
    ensures forall b :: CtxCount(c, b) <= 1
  {
    assert Count(t0, leaf) <= 1;
    forall b
      ensures CtxCount(c, b) <= 1
    {
      assert Count(t0, b) <= 1;
    }
    if OnSpine(c, leaf) {
      SpineCount(c, leaf);
    }
  }

  /** The blocks after the extents of the leaf were cut. */
  ghost function LeafCutTo(m: map<nat, Node>, path: seq<PathEnt>, es: seq<Entry>): map<nat, Node>
    requires path != [] && path[|path| - 1].blk in m
  {
    m[path[|path| - 1].blk := m[path[|path| - 1].blk].(entries := es)]
  }

  /** A leaf that keeps extents, seen in the blocks. */
  lemma {:induction false} LeafKeptNode(m: map<nat, Node>, cap: nat, path: seq<PathEnt>, c: Ctx, es: seq<Entry>,
          from: nat, low: seq<Entry>, m': map<nat, Node>, path': seq<PathEnt>, c1: Ctx, s: Tree)
    requires |path| > 1 && AtLeaf(m, cap, path, c, es, from) && low == LowAll(es, from) != []
    requires var blk := path[|path| - 1].blk;
             CtxCount(c, blk) == 0 && !OnSpine(c, blk) && forall b :: CtxCount(c, b) <= 1
    requires low[0].first == es[0].first && (path[|path| - 1].pos > 0 ==> low[0] == es[0])
    requires Extents(low) && |low| <= |es|
    requires m' == RekeyAll(LeafCutTo(m, path, low), path, |path| - 1, path[|path| - 1].pos, low[0].first)
    requires path' == path[|path| - 2 := PathEnt(path[|path| - 2].blk, path[|path| - 2].pos + 1)]
    requires c1 == CtxRekey(c, path[|path| - 1].pos, low[0].first) && s == Leaf(path[|path| - 1].blk, low)
    ensures c1.Frame? && AtNode(m', cap, path', |path| - 2, Keep(c1, s)) && m'.Keys == m.Keys
  {
    hide LowAll, HighAll, Sorted, FlatAll, CountAll, Stored, Links, Pends;
    var d := |path| - 1;
    var blk, pos, key := path[d].blk, path[d].pos, low[0].first;
    var m1 := LeafCutTo(m, path, low);
    CtxFrame(m, m1, c, blk, 1, cap);
    RekeyStored(m1, c, blk, 1, cap, path, d, pos, key);
    RekeyPath(c, pos, key, path, d);
    if pos == 0 {
      RekeyLinks(c, es, low, key);
    } else {
      SameLinks(c, es, low);
    }
    LeafTree(m', s, cap);
    KeepStored(m', c1, s, 1, cap);
    PathBump(c1, s, path, d);
  }

  /** A leaf that keeps extents. */
  lemma {:induction false} LeafKept(m0: map<nat, Node>, t0: Tree, m: map<nat, Node>, cap: nat, path: seq<PathEnt>,
          c: Ctx, from: nat, gone: seq<nat>, lost: seq<Entry>, es: seq<Entry>, m': map<nat, Node>, path': seq<PathEnt>)
    returns (c': Ctx)
    requires |path| > 1 && Walk(m0, t0, m, cap, path, |path| - 1, c, from, gone, lost)
    requires es == m[path[|path| - 1].blk].entries && LowAll(es, from) != []
    requires m' ==
             RekeyAll(LeafCutTo(m, path, LowAll(es, from)), path, |path| - 1, path[|path| - 1].pos,
                 LowAll(es, from)[0].first)
    requires path' == path[|path| - 2 := PathEnt(path[|path| - 2].blk, path[|path| - 2].pos + 1)]
    ensures Walk(m0, t0, m', cap, path', |path| - 2, c', from, gone, lost + HighAll(es, from))
    ensures CtxSize(c') == CtxSize(c)
  {
    hide LowAll, HighAll, Flows, FlatAll, CountAll, CtxKept, CtxPend, AtNode, CtxRekey, RekeyAll, LeafCutTo, CtxStored,
        CtxLinks, CtxPath, Keep;
    var d := |path| - 1;
    var low := LowAll(es, from);
    LeafLow(es, path[d].pos, from);
    LeafAlone(m0, t0, m, c, path[d].blk, gone);
    var c1, s := CtxRekey(c, path[d].pos, low[0].first), Leaf(path[d].blk, low);
    LeafKeptNode(m, cap, path, c, es, from, low, m', path', c1, s);
    RekeyMeasures(c, path[d].pos, low[0].first);
    KeepMeasures(c1, s);
    c' := Keep(c1, s);
    FlowsOn(Flat(t0), from, c, es, lost, c');
  }

  lemma {:induction false} LeafTree(m: map<nat, Node>, s: Tree, cap: nat)
    requires s.Leaf? && Extents(s.es) && s.blk in m && m[s.blk] == Node(s.es, MaxOf(s.blk, cap), 0)
             && |s.es| <= MaxOf(s.blk, cap)
    ensures Shape(s) && Stored(m, s, 0, cap) && Flat(s) == s.es
  {
  }

  /** A leaf that is emptied, seen in the blocks. */
  lemma {:induction false} LeafDroppedNode(m: map<nat, Node>, cap: nat, path: seq<PathEnt>, c: Ctx, m1: map<nat, Node>,
          blk: nat)
    returns (key: nat)
    requires |path| > 1 && blk == path[|path| - 1].blk && blk in m
    requires CtxStored(m, c, blk, 1, cap) && CtxPath(c, path, |path| - 1) && CtxLinks(c, [])
    requires CtxCount(c, blk) == 0 && forall b :: CtxCount(c, b) <= 1
    requires m1 == LeafCutTo(m, path, [])
    ensures var e := path[|path| - 2]; e.blk in m1 && 0 <= e.pos < |m1[e.blk].entries|
    ensures c.Frame? && AtNode(Removed(m1, path, |path| - 2, blk), cap, path, |path| - 2, Drop(c, key))
    ensures Removed(m1, path, |path| - 2, blk).Keys == m.Keys - {blk}
  {
    hide LowAll, HighAll, FlatAll, CountAll, Stored, Links, Pends, Removed;
    CtxFrame(m, m1, c, blk, 1, cap);
    DropStored(m1, c, blk, 1, cap, path, |path| - 2);
    key := NextKey(m1[c.blk].entries, |c.kept|);
    DropLinks(c, [], key);
  }

  /** A leaf that is emptied. */
  lemma {:induction false} LeafDropped(m0: map<nat, Node>, t0: Tree, m: map<nat, Node>, cap: nat, path: seq<PathEnt>,
          c: Ctx, from: nat, gone: seq<nat>, lost: seq<Entry>, es: seq<Entry>)
    returns (c': Ctx)
    requires |path| > 1 && Walk(m0, t0, m, cap, path, |path| - 1, c, from, gone, lost)
    requires es == m[path[|path| - 1].blk].entries && LowAll(es, from) == []
    ensures var m1 := LeafCutTo(m, path, []); var e := path[|path| - 2];
            e.blk in m1 && 0 <= e.pos < |m1[e.blk].entries|
    ensures Walk(m0, t0, Removed(LeafCutTo(m, path, []), path, |path| - 2, path[|path| - 1].blk), cap, path,
                 |path| - 2, c', from, gone + [path[|path| - 1].blk], lost + HighAll(es, from))
    ensures CtxSize(c') == CtxSize(c)
  {
    hide LowAll, HighAll, Flows, FlatAll, CountAll, CtxKept, CtxPend, AtNode, LeafCutTo, CtxStored, CtxLinks, CtxPath,
        Drop, Removed;
    var blk := path[|path| - 1].blk;
    LeafAlone(m0, t0, m, c, blk, gone);
    var key := LeafDroppedNode(m, cap, path, c, LeafCutTo(m, path, []), blk);
    DropMeasures(c, key);
    c' := Drop(c, key);
    assert CtxKept(c) + [] == CtxKept(c);
    FlowsOn(Flat(t0), from, c, es, lost, c');
    DropAccounts(m0, t0, m, Removed(LeafCutTo(m, path, []), path, |path| - 2, blk), c, blk, gone, c', -1);
  }

  /** One more block given back. */
  lemma {:induction false} DropAccounts(m0: map<nat, Node>, t0: Tree, m: map<nat, Node>, m': map<nat, Node>, c: Ctx,
          blk: nat, gone: seq<nat>, c': Ctx, none: int)
    requires Accounts(m0, t0, m, c, blk, gone) && m'.Keys == m.Keys - {blk} && none < 0
    requires forall b :: CtxCount(c', b) == CtxCount(c, b)
    ensures Accounts(m0, t0, m', c', none, gone + [blk])
  {
    forall b
      ensures Occ(gone + [blk], b) == Occ(gone, b) + if b == blk then 1 else 0
    {
      OccAdd(gone, blk, b);
    }
  }

  // ---- the next child ----

  lemma {:induction false} RootOnSpine(c: Ctx, path: seq<PathEnt>, n: nat)
    requires CtxPath(c, path, n) && n > 0
    ensures OnSpine(c, 0)
    decreases c
  {
    if n > 1 {
      RootOnSpine(c.up, path, n - 1);
    }
  }

  /** The first pending child is not the root, and its extents lie at from or beyond. */
  lemma {:induction false} KidFacts(m0: map<nat, Node>, t0: Tree, m: map<nat, Node>, path: seq<PathEnt>, n: nat, c: Ctx,
                                    from: nat, gone: seq<nat>, f: seq<Entry>, lost: seq<Entry>)
    requires c.Frame? && c.pend != [] && c.pe != [] && CtxPath(c, path, n) && Accounts(m0, t0, m, c, -1, gone)
    requires Extents(f) && Flows(f, from, c, [], lost)
    ensures c.pend[0].blk != 0
    ensures Sorted(Flat(c.pend[0])) && forall i :: 0 <= i < |Flat(c.pend[0])| ==> from <= Flat(c.pend[0])[i].first
    ensures var d := Opened(c);
            Sorted(CtxPend(d))
            && forall i {:trigger CtxPend(d)[i]} :: 0 <= i < |CtxPend(d)| ==> from <= CtxPend(d)[i].first
  {
    hide Flat, FlatAll, CtxPend, CtxKept, CtxCount, Count;
    OpenMeasures(c);
    var kid, d := c.pend[0], Opened(c);
    assert kid.blk != 0 by {
      OpenPath(c, path, n);
      RootOnSpine(d, path, n);
      SpineCount(d, 0);
      KidCount(kid);
      assert CtxCount(c, 0) <= Count(t0, 0) <= 1;
    }
    var x, y := Flat(kid), CtxPend(d);
    SortedParts(x, y);
    forall i | 0 <= i < |x|
      ensures IsExtent(x[i]) && from <= x[i].first
    {
      assert CtxPend(c)[i] == x[i];
    }
    forall i {:trigger y[i]} | 0 <= i < |y|
      ensures IsExtent(y[i]) && from <= y[i].first
    {
      assert CtxPend(c)[|x| + i] == y[i];
    }
  }

  lemma {:induction false} KidCount(t: Tree)
    ensures Count(t, t.blk) > 0
  {
  }

  lemma {:induction false} OpenPath(c: Ctx, path: seq<PathEnt>, n: nat)
    requires c.Frame? && c.pend != [] && c.pe != [] && CtxPath(c, path, n)
    ensures CtxPath(Opened(c), path, n)
  {
  }

  /** Descending into an inner child. */
  lemma {:induction false} EnterNode(m0: map<nat, Node>, t0: Tree, m: map<nat, Node>, cap: nat, path: seq<PathEnt>,
          i: nat, c: Ctx, from: nat, gone: seq<nat>, lost: seq<Entry>, path': seq<PathEnt>)
    returns (c': Ctx)
    requires i + 2 < |path| && Walk(m0, t0, m, cap, path, i, c, from, gone, lost) && c.pend != [] && c.pe != []
    requires path' == path[i + 1 := PathEnt(c.pend[0].blk, 0)]
    ensures Walk(m0, t0, m, cap, path', i + 1, c', from, gone, lost)
    ensures CtxSize(c') < CtxSize(c)
  {
    hide LowAll, HighAll, Sorted, FlatAll, CountAll, CtxKept, CtxPend, Flat, CtxCount, CtxStored, CurStored, CurLinks,
        CtxLinks, CtxSize, Size;
    KidFacts(m0, t0, m, path, i + 1, c, from, gone, Flat(t0), lost);
    var kid, d := c.pend[0], Opened(c);
    OpenMeasures(c);
    OpenStored(m, c, |path| - 1 - i, cap);
    LeafOrInner(m, kid, |path| - 2 - i, cap);
    EnterMeasures(d, kid);
    EnterStored(m, d, kid, |path| - 2 - i, cap);
    c' := Entered(d, kid);
    OpenPath(c, path, i + 1);
    PathPrefix(d, path, path', i + 1);
  }

  lemma {:induction false} LeafOrInner(m: map<nat, Node>, t: Tree, h: nat, cap: nat)
    requires Stored(m, t, h, cap)
    ensures t.Leaf? <==> h == 0
    ensures t.blk in m && m[t.blk] == Node(t.es, MaxOf(t.blk, cap), h) && |t.es| <= MaxOf(t.blk, cap)
    ensures t.Leaf? ==> Flat(t) == t.es
  {
  }

  /** Descending into a leaf. */
  lemma {:induction false} EnterLeaf(m0: map<nat, Node>, t0: Tree, m: map<nat, Node>, cap: nat, path: seq<PathEnt>,
          c: Ctx, from: nat, gone: seq<nat>, lost: seq<Entry>, path': seq<PathEnt>)
    returns (c': Ctx)
    requires |path| > 1 && Walk(m0, t0, m, cap, path, |path| - 2, c, from, gone, lost) && c.pend != [] && c.pe != []
    requires path' == path[|path| - 1 := PathEnt(c.pend[0].blk, 0)]
    ensures Walk(m0, t0, m, cap, path', |path| - 1, c', from, gone, lost)
    ensures CtxSize(c') < CtxSize(c)
  {
    hide Sorted, FlatAll, CountAll, CtxKept, CtxPend, Flat, CtxCount, CtxStored, CurStored, CurLinks, CtxLinks, CtxSize,
        LowAll, HighAll;
    var i := |path| - 2;
    KidFacts(m0, t0, m, path, i + 1, c, from, gone, Flat(t0), lost);
    var kid, d := c.pend[0], Opened(c);
    OpenMeasures(c);
    OpenStored(m, c, 1, cap);
    LeafOrInner(m, kid, 0, cap);
    AllHigh(kid.es, from);
    c' := d;
    OpenPath(c, path, i + 1);
    PathPrefix(d, path, path', i + 1);
    NoCut(from);
    assert CtxKept(c) + [] == CtxKept(c);
    assert [] + CtxPend(c) == CtxPend(c);
    assert Size(kid) > 0;
  }

  lemma {:induction false} NoCut(from: nat)
    ensures LowAll([], from) == [] && HighAll([], from) == []
  {
  }

  // ---- going up ----

  /** A node with nothing left to visit that keeps children. */
  lemma {:induction false} CloseKept(m0: map<nat, Node>, t0: Tree, m: map<nat, Node>, cap: nat, path: seq<PathEnt>,
          i: nat, c: Ctx, from: nat, gone: seq<nat>, lost: seq<Entry>, path': seq<PathEnt>)
    returns (c': Ctx)
    requires 0 < i && i + 1 < |path| && Walk(m0, t0, m, cap, path, i, c, from, gone, lost) && c.pend == [] && c.ke != []
    requires path' == path[i - 1 := PathEnt(path[i - 1].blk, path[i - 1].pos + 1)]
    ensures Walk(m0, t0, m, cap, path', i - 1, c', from, gone, lost)
    ensures CtxSize(c') == CtxSize(c)
  {
    hide Sorted, FlatAll, CountAll, CtxKept, CtxPend, Flat, CtxCount, CtxStored, CurLinks, CtxLinks, CtxSize, LowAll,
        HighAll, Flows, Extents, Stored, Links, StoredAll, Count, Keep;
    assert CtxPath(c.up, path, i);
    CloseMeasures(c);
    CloseStored(m, c, |path| - 1 - i, cap);
    var s := Closed(c);
    KeepStored(m, c.up, s, |path| - i, cap);
    KeepMeasures(c.up, s);
    PathBump(c.up, s, path, i);
    c' := Keep(c.up, s);
    SameFlows(Flat(t0), from, c, lost, c');
  }

  lemma {:induction false} SameFlows(f: seq<Entry>, from: nat, c: Ctx, lost: seq<Entry>, c': Ctx)
    requires Extents(f) && Flows(f, from, c, [], lost)
    requires CtxKept(c') == CtxKept(c) && CtxPend(c') == CtxPend(c)
    ensures Flows(f, from, c', [], lost)
  {
  }

  lemma {:induction false} UpAlone(m0: map<nat, Node>, t0: Tree, m: map<nat, Node>, c: Ctx, gone: seq<nat>)
    requires c.Frame? && c.pend == [] && c.kept == [] && Accounts(m0, t0, m, c, -1, gone)
    ensures Accounts(m0, t0, m, c.up, c.blk, gone)
    ensures CtxCount(c.up, c.blk) == 0 && forall b :: CtxCount(c.up, b) <= 1
  {
    forall b
      ensures CtxCount(c, b) == CtxCount(c.up, b) + (if b == c.blk then 1 else 0) <= 1
    {
      assert Count(t0, b) <= 1;
    }
  }

  /** A node with nothing left to visit and nothing kept. */
  lemma {:induction false} CloseDropped(m0: map<nat, Node>, t0: Tree, m: map<nat, Node>, cap: nat, path: seq<PathEnt>,
          i: nat, c: Ctx, from: nat, gone: seq<nat>, lost: seq<Entry>)
    returns (c': Ctx)
    requires 0 < i && i + 1 < |path| && Walk(m0, t0, m, cap, path, i, c, from, gone, lost) && c.pend == [] && c.ke == []
    ensures path[i - 1].blk in m && 0 <= path[i - 1].pos < |m[path[i - 1].blk].entries|
    ensures Walk(m0, t0, Removed(m, path, i - 1, path[i].blk), cap, path, i - 1, c', from, gone + [path[i].blk], lost)
    ensures CtxSize(c') == CtxSize(c)
  {
    hide Sorted, FlatAll, CountAll, CtxKept, CtxPend, Flat, CtxCount, CtxStored, CtxLinks, CtxSize, LowAll, HighAll,
        Flows, Extents, Stored, StoredAll, Count, Drop, Removed;
    assert CtxPath(c.up, path, i);
    UpAlone(m0, t0, m, c, gone);
    CloseMeasures(c);
    DropStored(m, c.up, c.blk, |path| - i, cap, path, i - 1);
    var key := NextKey(m[c.up.blk].entries, |c.up.kept|);
    DropLinks(c.up, FlatAll(c.kept), key);
    DropMeasures(c.up, key);
    c' := Drop(c.up, key);
    DropAccounts(m0, t0, m, Removed(m, path, i - 1, c.blk), c.up, c.blk, gone, c', -1);
    EmptyClosed(c);
    SameFlows(Flat(t0), from, c, lost, c');
  }

  lemma {:induction false} EmptyClosed(c: Ctx)
    requires c.Frame? && c.kept == []
    ensures Flat(Closed(c)) == [] && forall s: seq<Entry> :: s + Flat(Closed(c)) == s
  {
    assert FlatAll([]) == [];
  }

  // ---- the end ----

  /** The blocks once the root was reset if it lost everything. */
  function Reset(m: map<nat, Node>): map<nat, Node>
    requires 0 in m
  {
    if m[0].entries == [] then m[0 := Node([], ROOT_MAX, 0)] else m
  }

  lemma {:induction false} WalkDone(m0: map<nat, Node>, t0: Tree, m: map<nat, Node>, cap: nat, path: seq<PathEnt>,
          c: Ctx, from: nat, gone: seq<nat>, lost: seq<Entry>)
    returns (t': Tree)
    requires Held(m0, t0, cap) && Walk(m0, t0, m, cap, path, -1, c, from, gone, lost)
    ensures 0 in m && Held(Reset(m), t', cap)
    ensures Extents(Flat(t0)) && Flat(t') == LowAll(Flat(t0), from) && lost == HighAll(Flat(t0), from) && Sorted(lost)
    ensures forall b: nat :: Count(t', b) + Occ(gone, b) == Count(t0, b)
    ensures forall b: nat :: b in Reset(m) <==> b in m0 && Occ(gone, b) == 0
  {
    hide Sorted, FlatAll, CountAll, CtxKept, CtxPend, CtxLinks, CtxSize, LowAll, HighAll, Stored, StoredAll, CtxStored,
        Flat, Count, CtxCount, Flows, Shape, Links, Pends;
    LowSorted(Flat(t0), from);
    HighSorted(Flat(t0), from);
    if |path| == 1 {
      t' := DoneRoot(m0, t0, m, cap, path, c, from, gone, lost);
    } else {
      t' := DoneNode(m0, t0, m, cap, path, c, from, gone, lost);
    }
  }

  lemma {:induction false} DoneRoot(m0: map<nat, Node>, t0: Tree, m: map<nat, Node>, cap: nat, path: seq<PathEnt>,
          c: Ctx, from: nat, gone: seq<nat>, lost: seq<Entry>)
    returns (t': Tree)
    requires Held(m0, t0, cap) && |path| == 1 && Walk(m0, t0, m, cap, path, -1, c, from, gone, lost)
             && Sorted(LowAll(Flat(t0), from))
    ensures Held(m, t', cap) && m == Reset(m)
    ensures Flat(t') == LowAll(Flat(t0), from) && lost == HighAll(Flat(t0), from)
    ensures forall b: nat :: Count(t', b) + Occ(gone, b) == Count(t0, b)
    ensures forall b: nat :: b in m <==> b in m0 && Occ(gone, b) == 0
  {
    hide LowAll, HighAll, Stored, Shape;
    t' := Leaf(0, LowAll(Flat(t0), from));
    LeafTree(m, t', cap);
    assert Count(t0, 0) <= 1;
    RootTree(m0, t0, m, m, t', cap, gone, 0);
  }

  lemma {:induction false} DoneNode(m0: map<nat, Node>, t0: Tree, m: map<nat, Node>, cap: nat, path: seq<PathEnt>,
          c: Ctx, from: nat, gone: seq<nat>, lost: seq<Entry>)
    returns (t': Tree)
    requires Held(m0, t0, cap) && |path| > 1 && Walk(m0, t0, m, cap, path, -1, c, from, gone, lost)
             && Sorted(LowAll(Flat(t0), from))
    ensures 0 in m && Held(Reset(m), t', cap)
    ensures Flat(t') == LowAll(Flat(t0), from) && lost == HighAll(Flat(t0), from)
    ensures forall b: nat :: Count(t', b) + Occ(gone, b) == Count(t0, b)
    ensures forall b: nat :: b in m <==> b in m0 && Occ(gone, b) == 0
  {
    hide Sorted, FlatAll, CountAll, CtxKept, CtxPend, CtxLinks, CtxSize, LowAll, HighAll, Stored, StoredAll, Flows;
    assert CtxPath(c.up, path, 0);
    DoneFlows(Flat(t0), from, c, lost);
    CloseMeasures(c);
    if c.ke == [] {
      t' := Leaf(0, []);
      EmptyClosed(c);
      UpAlone(m0, t0, m, c, gone);
      EmptyTree(cap, Reset(m));
      RootTree(m0, t0, m, Reset(m), t', cap, gone, 0);
    } else {
      CloseStored(m, c, |path| - 1, cap);
      t' := Closed(c);
      RootTree(m0, t0, m, m, t', cap, gone, |path| - 1);
    }
  }

  lemma {:induction false} EmptyTree(cap: nat, m: map<nat, Node>)
    requires 0 in m && m[0] == Node([], ROOT_MAX, 0)
    ensures Stored(m, Leaf(0, []), 0, cap) && Shape(Leaf(0, [])) && Flat(Leaf(0, [])) == []
  {
  }

  lemma {:induction false} DoneFlows(f: seq<Entry>, from: nat, c: Ctx, lost: seq<Entry>)
    requires Extents(f) && c.Frame? && c.up.Top? && c.pend == [] && Flows(f, from, c, [], lost)
    ensures FlatAll(c.kept) == LowAll(f, from) && lost == HighAll(f, from)
  {
    hide Low, High, Sorted;
    assert LowAll([], from) == [] && HighAll([], from) == [];
    assert CtxPend(c) == [] by {
      assert FlatAll(c.pend) == [];
    }
    assert CtxKept(c) == FlatAll(c.kept);
    assert CtxKept(c) + [] == CtxKept(c) && lost + ([] + []) == lost;
  }

  lemma {:induction false} RootTree(m0: map<nat, Node>, t0: Tree, m: map<nat, Node>, m': map<nat, Node>, t': Tree,
          cap: nat, gone: seq<nat>, h: nat)
    requires Held(m0, t0, cap) && t'.blk == 0 && Stored(m', t', h, cap) && Shape(t') && Sorted(Flat(t'))
    requires m'.Keys == m.Keys
    requires forall b: nat :: b in m <==> b in m0 && Occ(gone, b) == 0
    requires forall b: nat :: Count(t', b) + Occ(gone, b) == Count(t0, b)
    ensures Held(m', t', cap)
  {
  }

  // ---- following the path in the blocks ----

  lemma {:induction false} CtxOnPath(m: map<nat, Node>, c: Ctx, child: nat, h: nat, cap: nat, path: seq<PathEnt>,
          n: nat, j: nat)
    requires CtxStored(m, c, child, h, cap) && CtxPath(c, path, n) && j < n
    ensures path[j].blk in m && 0 <= path[j].pos < |m[path[j].blk].entries|
            && m[path[j].blk].entries[path[j].pos].Index?
    ensures OnSpine(c, path[j].blk)
    decreases c
  {
    if j < n - 1 {
      CtxOnPath(m, c.up, c.blk, h + 1, cap, path, n - 1, j);
    }
  }

  lemma {:induction false} CtxDistinct(m: map<nat, Node>, c: Ctx, child: nat, h: nat, cap: nat, path: seq<PathEnt>,
          n: nat, i: nat, j: nat)
    requires CtxStored(m, c, child, h, cap) && CtxPath(c, path, n) && i < j < n
    requires forall b :: CtxCount(c, b) <= 1
    ensures path[i].blk != path[j].blk
    decreases c
  {
    forall b
      ensures CtxCount(c.up, b) + (if b == c.blk then 1 else 0) <= 1
    {
      assert CtxCount(c, b) <= 1;
    }
    if j == n - 1 {
      CtxOnPath(m, c.up, c.blk, h + 1, cap, path, n - 1, i);
      SpineCount(c.up, path[i].blk);
    } else {
      CtxDistinct(m, c.up, c.blk, h + 1, cap, path, n - 1, i, j);
    }
  }

  /** The path over a leaf, with the leaf's entries changed. */
  lemma {:induction false} LeafWalkable(m0: map<nat, Node>, t0: Tree, m: map<nat, Node>, cap: nat, path: seq<PathEnt>,
          c: Ctx, from: nat, gone: seq<nat>, lost: seq<Entry>, es: seq<Entry>)
    requires path != [] && Walk(m0, t0, m, cap, path, |path| - 1, c, from, gone, lost)
    ensures Walkable(LeafCutTo(m, path, es), path)
  {
    hide LowAll, HighAll, Flows, CtxStored, CtxLinks;
    var d := |path| - 1;
    var m1 := LeafCutTo(m, path, es);
    LeafAlone(m0, t0, m, c, path[d].blk, gone);
    forall j | 0 <= j < d
      ensures path[j].blk in m && path[j].blk != path[d].blk
      ensures 0 <= path[j].pos < |m1[path[j].blk].entries| && m1[path[j].blk].entries[path[j].pos].Index?
    {
      CtxOnPath(m, c, path[d].blk, 1, cap, path, d, j);
    }
    forall i, j | 0 <= i < j < |path|
      ensures path[i].blk != path[j].blk
    {
      if j < d {
        CtxDistinct(m, c, path[d].blk, 1, cap, path, d, i, j);
      }
    }
  }

  /** What cutting the leaf at the end of the path and tidying up above it leads to. */
  ghost predicate LeafTrimmed(m: map<nat, Node>, m': map<nat, Node>, path: seq<PathEnt>, path': seq<PathEnt>,
          low: seq<Entry>, dropped: seq<nat>)
    requires path != [] && path[|path| - 1].blk in m
  {
    var d := |path| - 1;
    var m1 := LeafCutTo(m, path, low);
    if low != [] then
      && dropped == []
      && m' == RekeyAll(m1, path, d, path[d].pos, low[0].first)
      && path' == (if d == 0 then path else path[d - 1 := PathEnt(path[d - 1].blk, path[d - 1].pos + 1)])
    else if d == 0 then
      dropped == [] && m' == m1 && path' == path
    else
      && dropped == [path[d].blk] && path' == path
      && path[d - 1].blk in m1 && 0 <= path[d - 1].pos < |m1[path[d - 1].blk].entries|
      && m' == Removed(m1, path, d - 1, path[d].blk)
  }

  /** The index at the path's position in level i leads to child, and can be removed. */
  ghost predicate RemovableAt(m: map<nat, Node>, path: seq<PathEnt>, i: nat, child: nat) {
    && i < |path| && path[i].blk in m && 0 <= path[i].pos < |m[path[i].blk].entries|
    && m[path[i].blk].entries[path[i].pos].Index? && m[path[i].blk].entries[path[i].pos].leaf == child
    && Upward(m[path[i].blk := RemoveAt(m[path[i].blk], path[i].pos)] - {child}, path, i)
  }

  /** Where ext4_extent_remove_space starts in a leaf. */
  function LeafFrom(es: seq<Entry>, from: nat): nat
    requires es != []
  {
    if es[0].first < from then from else es[0].first
  }

  /** Starting at the first extent of the leaf makes no difference. */
  lemma {:induction false} LeafFromSame(es: seq<Entry>, pos: nat, from: nat)
    requires Sorted(es) && pos < |es|
    requires (forall i :: 0 <= i < pos ==> End(es[i]) <= from) && from < End(es[pos])
    requires forall i :: pos < i < |es| ==> from <= es[i].first
    ensures var f := LeafFrom(es, from);
            && LowAll(es, f) == LowAll(es, from) && HighAll(es, f) == HighAll(es, from)
            && (forall i :: 0 <= i < pos ==> End(es[i]) <= f) && f < End(es[pos])
            && (forall i :: pos < i < |es| ==> f <= es[i].first)
  {
    if es[0].first >= from {
      AllHigh(es, from);
      AllHigh(es, es[0].first);
    }
  }

  /** The leaf's index can be removed. */
  lemma {:induction false} LeafRemovable(m0: map<nat, Node>, t0: Tree, m: map<nat, Node>, cap: nat, path: seq<PathEnt>,
          c: Ctx, from: nat, gone: seq<nat>, lost: seq<Entry>)
    requires |path| > 1 && Walk(m0, t0, m, cap, path, |path| - 1, c, from, gone, lost)
    ensures RemovableAt(LeafCutTo(m, path, []), path, |path| - 2, path[|path| - 1].blk)
  {
    hide LowAll, HighAll, Flows, CtxLinks;
    var d := |path| - 1;
    var m1 := LeafCutTo(m, path, []);
    LeafAlone(m0, t0, m, c, path[d].blk, gone);
    CtxFrame(m, m1, c, path[d].blk, 1, cap);
    Removable(m1, c, path[d].blk, 1, cap, path, d - 1);
  }

  lemma {:induction false} Removable(m: map<nat, Node>, c: Ctx, child: nat, h: nat, cap: nat, path: seq<PathEnt>,
          i: nat)
    requires c.Frame? && CtxStored(m, c, child, h, cap) && CtxPath(c, path, i + 1)
    requires CtxCount(c, child) == 0 && forall b :: CtxCount(c, b) <= 1
    ensures RemovableAt(m, path, i, child)
  {
    forall j | 0 <= j < i
      ensures path[j].blk in m && path[j].blk != path[i].blk && path[j].blk != child
              && 0 <= path[j].pos < |m[path[j].blk].entries|
    {
      CtxOnPath(m, c, child, h, cap, path, i + 1, j);
      CtxDistinct(m, c, child, h, cap, path, i + 1, j, i);
      SpineCount(c, path[j].blk);
    }
  }

  /** The first iteration at a leaf. */
  lemma {:induction false} LeafCutDone(m0: map<nat, Node>, t0: Tree, m: map<nat, Node>, cap: nat, path: seq<PathEnt>,
          c: Ctx, from: nat, gone: seq<nat>, lost: seq<Entry>, es: seq<Entry>, m': map<nat, Node>, path': seq<PathEnt>,
          dropped: seq<nat>)
    returns (c': Ctx)
    requires path != [] && Walk(m0, t0, m, cap, path, |path| - 1, c, from, gone, lost)
    requires es == m[path[|path| - 1].blk].entries && LeafTrimmed(m, m', path, path', LowAll(es, from), dropped)
    ensures |path'| == |path|
            && Walk(m0, t0, m', cap, path', |path| - 2, c', from, gone + dropped, lost + HighAll(es, from))
    ensures CtxSize(c') == CtxSize(c)
  {
    hide LowAll, HighAll, Flows, CtxStored, CtxLinks, Accounts, Removed, LeafCutTo;
    var low := LowAll(es, from);
    var d := |path| - 1;
    assert gone + [] == gone;
    if d == 0 {
      c' := Top;
      RootLeaf(m0, t0, m, cap, path, c, from, gone, lost, es, m');
    } else if low != [] {
      c' := LeafKept(m0, t0, m, cap, path, c, from, gone, lost, es, m', path');
    } else {
      c' := LeafDropped(m0, t0, m, cap, path, c, from, gone, lost, es);
    }
  }

  lemma {:induction false} RootLeaf(m0: map<nat, Node>, t0: Tree, m: map<nat, Node>, cap: nat, path: seq<PathEnt>,
          c: Ctx, from: nat, gone: seq<nat>, lost: seq<Entry>, es: seq<Entry>, m': map<nat, Node>)
    requires |path| == 1 && Walk(m0, t0, m, cap, path, 0, c, from, gone, lost)
    requires es == m[path[0].blk].entries && m' == LeafCutTo(m, path, LowAll(es, from))
    ensures Walk(m0, t0, m', cap, path, -1, Top, from, gone, lost + HighAll(es, from)) && c == Top
  {
    hide LowAll, HighAll;
    LeafLow(es, path[0].pos, from);
    assert [] + LowAll(es, from) == LowAll(es, from);
    assert HighAll(es, from) + [] == HighAll(es, from);
  }

  /** A leaf can be cut from its position on. */
  ghost predicate Cuttable(m: map<nat, Node>, path: seq<PathEnt>, from: nat) {
    && Walkable(m, path)
    && var e := path[|path| - 1]; var es := m[e.blk].entries;
    && Extents(es) && 0 <= e.pos < |es|
    && (forall i :: 0 <= i < e.pos ==> End(es[i]) <= from) && from < End(es[e.pos])
    && (forall i :: e.pos < i < |es| ==> from <= es[i].first)
    && Walkable(LeafCutTo(m, path, LowAll(es, from)), path)
    && (e.blk == 0 <==> |path| == 1)
    && (|path| > 1 && LowAll(es, from) == [] ==> RemovableAt(LeafCutTo(m, path, []), path, |path| - 2, e.blk))
  }

  lemma {:induction false} WalkCuttable(m0: map<nat, Node>, t0: Tree, m: map<nat, Node>, cap: nat, path: seq<PathEnt>,
          c: Ctx, from: nat, gone: seq<nat>, lost: seq<Entry>, es: seq<Entry>)
    requires path != [] && Walk(m0, t0, m, cap, path, |path| - 1, c, from, gone, lost)
             && es == m[path[|path| - 1].blk].entries
    ensures Extents(es) && es != [] && Cuttable(m, path, LeafFrom(es, from))
    ensures LowAll(es, LeafFrom(es, from)) == LowAll(es, from) && HighAll(es, LeafFrom(es, from)) == HighAll(es, from)
  {
    hide Flows, CtxStored, CtxLinks, Accounts, LowAll, HighAll, RemovableAt, Walkable;
    var d := |path| - 1;
    LeafFromSame(es, path[d].pos, from);
    LeafWalkable(m0, t0, m, cap, path, c, from, gone, lost, es);
    LeafWalkable(m0, t0, m, cap, path, c, from, gone, lost, LowAll(es, from));
    assert LeafCutTo(m, path, es) == m;
    if d > 0 {
      LeafRemovable(m0, t0, m, cap, path, c, from, gone, lost);
    }
  }

  // ---- what the walk reads ----

  lemma {:induction false} WalkNode(m0: map<nat, Node>, t0: Tree, m: map<nat, Node>, cap: nat, path: seq<PathEnt>,
          i: nat, c: Ctx, from: nat, gone: seq<nat>, lost: seq<Entry>)
    requires Walk(m0, t0, m, cap, path, i, c, from, gone, lost)
    ensures path[i].blk in m
    ensures i < |path| - 1 ==> 0 <= path[i].pos
  {
    hide Accounts, Flows;
  }

  lemma {:induction false} PendingKid(m: map<nat, Node>, cap: nat, path: seq<PathEnt>, i: nat, c: Ctx)
    requires AtNode(m, cap, path, i, c) && path[i].pos < |m[path[i].blk].entries|
    ensures c.pend != [] && c.pe != [] && m[path[i].blk].entries[path[i].pos] == Index(c.pe[0].first, c.pend[0].blk)
  {
    OpenStored(m, c, |path| - 1 - i, cap);
  }

  lemma {:induction false} NoPending(m: map<nat, Node>, cap: nat, path: seq<PathEnt>, i: nat, c: Ctx)
    requires AtNode(m, cap, path, i, c) && path[i].pos >= |m[path[i].blk].entries|
    ensures c.pend == [] && (c.ke == [] <==> m[path[i].blk].entries == [])
  {
  }

  lemma {:induction false} CloseRemovable(m0: map<nat, Node>, t0: Tree, m: map<nat, Node>, cap: nat, path: seq<PathEnt>,
          i: nat, c: Ctx, from: nat, gone: seq<nat>, lost: seq<Entry>)
    requires 0 < i && i + 1 < |path| && Walk(m0, t0, m, cap, path, i, c, from, gone, lost) && c.pend == [] && c.ke == []
    ensures RemovableAt(m, path, i - 1, path[i].blk)
  {
    hide Flows, CtxStored, CtxLinks, RemovableAt;
    assert CtxPath(c.up, path, i);
    UpAlone(m0, t0, m, c, gone);
    Removable(m, c.up, c.blk, |path| - i, cap, path, i - 1);
  }

  /** Where the search for b ends, read from the blocks. */
  lemma {:induction false} SearchLeaf(m: map<nat, Node>, t: Tree, cap: nat, path: seq<PathEnt>, b: nat)
    requires Held(m, t, cap) && Found(t, path, 0, b)
    ensures OnPath(t, path, 0) && path != [] && path[|path| - 1].blk in m
    ensures var es := m[path[|path| - 1].blk].entries; var pos := path[|path| - 1].pos;
            && AtPos(es, pos, b) && Extents(es)
            && if pos >= 0 && Covers(es[pos], b)
               then b in View(Flat(t)) && View(Flat(t))[b] == es[pos].start + (b - es[pos].first)
               else b !in View(Flat(t))
  {
    hide View, Sorted;
    FoundOnPath(t, path, 0, b);
    var d := |path| - 1;
    SubFacts(m, t, cap, path, b, d);
    var leaf := SubAt(t, path, 0, d);
    StoredNode(m, leaf, 0, cap);
    SearchMapped(t, path, b, leaf);
  }

  /** The blocks after b in the extent that holds it follow it on disk too. */
  lemma {:induction false} ExtentAt(m: map<nat, Node>, t: Tree, cap: nat, path: seq<PathEnt>, b: nat, ex: Entry)
    returns (i: nat)
    requires Held(m, t, cap) && Found(t, path, 0, b) && path != [] && path[|path| - 1].blk in m
    requires var es := m[path[|path| - 1].blk].entries;
             var pos := path[|path| - 1].pos; 0 <= pos < |es| && ex == es[pos]
    ensures i < |Flat(t)| && Flat(t)[i] == ex && Sorted(Flat(t))
  {
    hide View, Sorted, Stored, Shape, Apart, Found, OnPath, SubAt, Bef, Aft, Flat, Count;
    FoundOnPath(t, path, 0, b);
    var d := |path| - 1;
    SubFacts(m, t, cap, path, b, d);
    var leaf := SubAt(t, path, 0, d);
    StoredNode(m, leaf, 0, cap);
    FlatPath(t, path, 0, d);
    LeafFlat(leaf);
    var a, y := Bef(t, path, 0, d), Aft(t, path, 0, d);
    assert Flat(t) == a + leaf.es + y && leaf.es[path[d].pos] == ex;
    hide *;
    i := |a| + path[d].pos;
    assert (a + leaf.es + y)[i] == leaf.es[path[d].pos];
  }

  lemma {:induction false} LeafFlat(leaf: Tree)
    requires leaf.Leaf?
    ensures Flat(leaf) == leaf.es
  {
  }

  /** The n blocks from b on are the rest of an extent. */
  ghost predicate EndsWith(f: seq<Entry>, b: nat, n: nat) {
    exists i :: 0 <= i < |f| && Covers(f[i], b) && b + n == End(f[i])
  }

  lemma {:induction false} RestOfExtent(m: map<nat, Node>, t: Tree, cap: nat, path: seq<PathEnt>, b: nat, ex: Entry,
          n: nat)
    requires Held(m, t, cap) && Found(t, path, 0, b) && path != [] && path[|path| - 1].blk in m
    requires var es := m[path[|path| - 1].blk].entries;
             var pos := path[|path| - 1].pos; 0 <= pos < |es| && ex == es[pos]
    requires Covers(ex, b) && n <= End(ex) - b
    ensures forall k :: b <= k < b + n ==> k in View(Flat(t)) && View(Flat(t))[k] == ex.start + (k - ex.first)
    ensures n == End(ex) - b ==> EndsWith(Flat(t), b, n)
  {
    var i := ExtentAt(m, t, cap, path, b, ex);
    hide View, Sorted, Stored, Shape, Found, Flat, Count;
    forall k | b <= k < b + n
      ensures k in View(Flat(t)) && View(Flat(t))[k] == ex.start + (k - ex.first)
    {
      ViewAt(Flat(t), i, k);
    }
  }

  lemma {:induction false} UnmappedApart(m: map<nat, Node>, t: Tree, cap: nat, x: Entry)
    requires Held(m, t, cap) && IsExtent(x) && x.len == 1 && x.first !in View(Flat(t))
    ensures Apart(x, Flat(t))
  {
    hide View, Stored, Shape;
    ApartIff(x, Flat(t));
    assert forall k :: k in RangeMap(x) ==> k == x.first;
  }
}
