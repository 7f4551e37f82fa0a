/** Linking the two halves of a split into the tree, or giving the split up. */
module ExtentSplitDone {
  import opened ExtentEntries
  import opened ExtentTree
  import opened ExtentPath
  import opened ExtentLeaf
  import opened ExtentHeld
  import opened ExtentSplit
  import opened ExtentSplitRun

  lemma {:induction false} NextSub(t: Tree, path: seq<PathEnt>, k: nat, i: nat)
    requires OnPath(t, path, k) && k <= i && i + 1 < |path|
    ensures var sub := SubAt(t, path, k, i);
            sub.Inner? && 0 <= path[i].pos < |sub.kids| && SubAt(t, path, k, i + 1) == sub.kids[path[i].pos]
    decreases t
  {
    if i > k {
      NextSub(t.kids[path[k].pos], path, k + 1, i);
    }
  }

  lemma {:induction false} FoundSub(t: Tree, path: seq<PathEnt>, k: nat, i: nat, b: nat)
    requires Found(t, path, k, b) && OnPath(t, path, k) && k <= i < |path|
    ensures Found(SubAt(t, path, k, i), path, i, b)
    decreases t
  {
    if i > k {
      FoundOnPath(t.kids[path[k].pos], path, k + 1, b);
      FoundSub(t.kids[path[k].pos], path, k + 1, i, b);
    }
  }

  /** What is known of the subtree at level i of a search path. */
  lemma {:induction false} SubFacts(m: map<nat, Node>, t: Tree, cap: nat, path: seq<PathEnt>, b: nat, i: nat)
    requires Held(m, t, cap) && Found(t, path, 0, b) && OnPath(t, path, 0) && i < |path|
    ensures var sub := SubAt(t, path, 0, i);
            && i <= m[0].depth && |path| == m[0].depth + 1
            && Stored(m, sub, m[0].depth - i, cap) && Shape(sub) && Distinct(sub)
            && OnPath(sub, path, i) && sub.blk == path[i].blk && (sub.Leaf? <==> i + 1 == |path|)
            && AtPos(sub.es, path[i].pos, b)
            && (forall c :: c !in m ==> Count(sub, c) == 0)
    ensures i > 0 ==> path[i].blk != 0
    ensures i > 0 ==> Flat(SubAt(t, path, 0, i)) != []
  {
    PathNode(m, t, m[0].depth, cap, path, 0, i);
    PathNode(m, t, m[0].depth, cap, path, 0, |path| - 1);
    SubOnPath(t, path, 0, i);
    FoundSub(t, path, 0, i, b);
    var sub := SubAt(t, path, 0, i);
    forall c
      ensures Count(sub, c) <= Count(t, c)
    {
      SubBlock(t, path, 0, i, c);
    }
    if i > 0 {
      PathDistinct(t, path, 0, 0, i);
      SubOnPath(t, path, 0, i - 1);
      NextSub(t, path, 0, i - 1);
    }
  }

  lemma {:induction false} JoinHalves(sub: Tree, path: seq<PathEnt>, a: nat, xs: seq<Entry>, b: nat,
                                      lt: Tree, rt: Tree, news: seq<nat>, ins: nat, j: Tree)
    requires OnPath(sub, path, a) && sub.Inner? && Shape(sub)
    requires CutInv(sub.kids[path[a].pos], path, a + 1, xs, b, lt, rt, news, ins)
    requires j == JoinOf(sub, path[a].pos, lt, rt, ins)
    ensures Shape(j) && j.blk == sub.blk && Flat(j) == Front(sub, path, a) + Back(sub, path, a, xs)
    ensures Flat(j) != [] && Flat(sub) != [] && Flat(j)[0] == Flat(sub)[0]
  {
    var p := path[a].pos;
    JoinShape(sub, p, lt, rt, ins);
    JoinFlat(sub, p, lt, rt, ins);
    FlatAllAt(sub.kids, p);
    Around(FlatAll(sub.kids[..p]), Flat(lt), Flat(rt), FlatAll(sub.kids[p + 1..]));
    SameFirst(FlatAll(sub.kids[..p]), Flat(lt), Flat(sub.kids[p]), FlatAll(sub.kids[p + 1..]));
    assert Flat(j)[0] == (FlatAll(sub.kids[..p]) + Flat(lt))[0];
  }

  lemma {:induction false} Around(a: seq<Entry>, b: seq<Entry>, c: seq<Entry>, d: seq<Entry>)
    ensures a + ((b + c) + d) == (a + b) + (c + d)
  {
  }

  lemma {:induction false} JoinCount(sub: Tree, p: nat, lt: Tree, rt: Tree, news: seq<nat>, ins: nat, j: Tree)
    requires sub.Inner? && p < |sub.kids| == |sub.es|
    requires Shared(sub.kids[p], lt, rt, news) && j == JoinOf(sub, p, lt, rt, ins)
    requires forall c :: c in news ==> Count(sub, c) == 0
    ensures forall c :: Count(j, c) == Count(sub, c) + if c in news then 1 else 0
  {
    forall c
      ensures Count(j, c) == Count(sub, c) + if c in news then 1 else 0
    {
      SplitCount(sub, p, lt, rt, sub.blk, ins, c);
    }
  }

  lemma {:induction false} JoinKept(m0: map<nat, Node>, m: map<nat, Node>, m': map<nat, Node>, h: nat, cap: nat,
          path: seq<PathEnt>, a: nat, xs: seq<Entry>, lt: Tree, rt: Tree, news: seq<nat>, n: Node)
    requires CutStored(m0, m, h, cap, path, a + 1, xs, lt, rt, news) && a < |path|
    requires path[a].blk in m0 && m' == m[path[a].blk := n]
    requires Count(lt, path[a].blk) == 0 && Count(rt, path[a].blk) == 0
    ensures var f := Filled(m', news, xs, cap);
            && Stored(f, lt, h, cap) && Stored(f, rt, h, cap)
            && path[a].blk in f && f[path[a].blk] == n
            && (forall b :: b in f <==> b in m0 || b in news)
            && (forall b :: b in m0 && (forall j :: a <= j < |path| ==> path[j].blk != b) ==> b in f && f[b] == m0[b])
            && (forall b :: b in m0 && b != path[a].blk && (forall j :: a + 1 <= j < |path| ==> path[j].blk != b) ==>
                  b in f && f[b] == m0[b])
  {
    var f0, f := Filled(m, news, xs, cap), Filled(m', news, xs, cap);
    assert news[0] in news;
    HalvesFrame(f0, f, lt, rt, h, cap, path[a].blk, path[a].blk);
    forall b | b in m0 && (forall j :: a <= j < |path| ==> path[j].blk != b)
      ensures b in f && f[b] == m0[b]
    {
      assert b != path[a].blk;
    }
  }

  /** Both halves linked into the node above, seen from that node. */
  lemma {:induction false} JoinReady(m0: map<nat, Node>, m: map<nat, Node>, m': map<nat, Node>, cap: nat,
          path: seq<PathEnt>, a: nat, xs: seq<Entry>, lt: Tree, rt: Tree, news: seq<nat>, ins: nat, sub: Tree, h: nat,
          j: Tree)
    requires OnPath(sub, path, a) && sub.Inner? && h > 0
    requires Stored(m0, sub, h, cap) && Shape(sub) && Distinct(sub)
    requires forall c :: c !in m0 ==> Count(sub, c) == 0
    requires Shared(sub.kids[path[a].pos], lt, rt, news)
    requires CutStored(m0, m, h - 1, cap, path, a + 1, xs, lt, rt, news)
    requires |sub.es| < MaxOf(sub.blk, cap)
    requires j == JoinOf(sub, path[a].pos, lt, rt, ins)
    requires m' == m[path[a].blk := Node(j.es, MaxOf(sub.blk, cap), h)]
    ensures var f := Filled(m', news, xs, cap);
            && Stored(f, j, h, cap)
            && (forall c :: c in f <==> c in m0 || c in news)
            && (forall c :: c in m0 && (forall j :: a <= j < |path| ==> path[j].blk != c) ==> c in f && f[c] == m0[c])
    ensures forall c :: Count(j, c) == Count(sub, c) + if c in news then 1 else 0
  {
    var p := path[a].pos;
    JoinCount(sub, p, lt, rt, news, ins, j);
    assert Count(lt, sub.blk) == 0 && Count(rt, sub.blk) == 0 by {
      SplitCount(sub, p, lt, rt, sub.blk, ins, sub.blk);
      assert Count(sub, sub.blk) <= 1 && sub.blk !in news;
    }
    JoinKept(m0, m, m', h - 1, cap, path, a, xs, lt, rt, news, m'[path[a].blk]);
    JoinPlaced(m0, Filled(m', news, xs, cap), sub, h, cap, path, a, p, lt, rt, ins, j);
  }

  /** Both halves linked into the node above: the tree is proper and holds xs in addition. */
  lemma {:induction false} SplitDone(m0: map<nat, Node>, m: map<nat, Node>, m': map<nat, Node>, t: Tree, cap: nat,
          path: seq<PathEnt>, a: nat, xs: seq<Entry>, b: nat, lt: Tree, rt: Tree, news: seq<nat>, ins: nat, sub: Tree,
          j: Tree)
    requires Held(m0, t, cap) && Found(t, path, 0, b) && OnPath(t, path, 0) && Walkable(m0, path)
    requires a + 1 < |path| && sub == SubAt(t, path, 0, a) && OnPath(sub, path, a) && sub.Inner? && a < m0[0].depth
    requires CutInv(sub.kids[path[a].pos], path, a + 1, xs, b, lt, rt, news, ins)
    requires CutStored(m0, m, m0[0].depth - a - 1, cap, path, a + 1, xs, lt, rt, news)
    requires |sub.es| == |sub.kids| && |sub.es| < MaxOf(sub.blk, cap)
    requires j == JoinOf(sub, path[a].pos, lt, rt, ins)
    requires m' == m[path[a].blk := Node(j.es, MaxOf(sub.blk, cap), m0[0].depth - a)]
    requires Sorted(Front(t, path, 0) + Back(t, path, 0, xs))
    ensures var f := Filled(m', news, xs, cap); var t' := Put(t, path, 0, a, j, false);
            && Held(f, t', cap)
            && Flat(t') == Front(t, path, 0) + Back(t, path, 0, xs)
            && (NoLeak(m0, t) ==> NoLeak(f, t'))
  {
    hide *;
    HeldFacts(m0, t, cap);
    SubFacts(m0, t, cap, path, b, a);
    CutShared(sub.kids[path[a].pos], path, a + 1, xs, b, lt, rt, news, ins);
    CutTouchedOnly(m0, m, m0[0].depth - a - 1, cap, path, a + 1, xs, lt, rt, news);
    JoinHalves(sub, path, a, xs, b, lt, rt, news, ins, j);
    JoinReady(m0, m, m', cap, path, a, xs, lt, rt, news, ins, sub, m0[0].depth - a, j);
    JoinFlatUp(t, path, a, sub, xs, j);
    PutHeld(m0, Filled(m', news, xs, cap), t, cap, path, a, j);
    MoreLeak(m0, Filled(m', news, xs, cap), t, Put(t, path, 0, a, j, false), sub, j, news);
  }

  lemma {:induction false} HeldFacts(m: map<nat, Node>, t: Tree, cap: nat)
    requires Held(m, t, cap)
    ensures 0 in m && Sorted(Flat(t)) && forall b :: Count(t, b) <= if b in m then 1 else 0
  {
  }

  lemma {:induction false} CutShared(kid: Tree, path: seq<PathEnt>, i: nat, xs: seq<Entry>, b: nat, lt: Tree, rt: Tree,
          news: seq<nat>, ins: nat)
    requires OnPath(kid, path, i) && CutInv(kid, path, i, xs, b, lt, rt, news, ins)
    ensures Shared(kid, lt, rt, news) && news != [] && news[0] in news
  {
  }

  /** With the new blocks counted once more, still every block belongs to the tree. */
  lemma {:induction false} MoreLeak(m0: map<nat, Node>, f: map<nat, Node>, t: Tree, t': Tree, sub: Tree, j: Tree,
          news: seq<nat>)
    requires forall b :: Count(t', b) == Count(t, b) - Count(sub, b) + Count(j, b)
    requires forall c :: Count(j, c) == Count(sub, c) + if c in news then 1 else 0
    requires forall b :: Count(t, b) <= if b in m0 then 1 else 0
    requires forall b :: Count(t', b) <= if b in f then 1 else 0
    requires forall c :: c in f <==> c in m0 || c in news
    ensures NoLeak(m0, t) ==> NoLeak(f, t')
  {
    hide Count;
  }

  lemma {:induction false} Around2(a: seq<Entry>, b: seq<Entry>, c: seq<Entry>, d: seq<Entry>)
    ensures a + (b + c) + d == (a + b) + (c + d)
  {
  }

  lemma {:induction false} JoinFlatUp(t: Tree, path: seq<PathEnt>, a: nat, sub: Tree, xs: seq<Entry>, j: Tree)
    requires OnPath(t, path, 0) && a < |path| && sub == SubAt(t, path, 0, a) && OnPath(sub, path, a) && Sorted(Flat(t))
    requires Flat(j) == Front(sub, path, a) + Back(sub, path, a, xs)
    requires Flat(j) != [] && Flat(sub) != [] && Flat(j)[0] == Flat(sub)[0]
    ensures Bef(t, path, 0, a) + Flat(j) + Aft(t, path, 0, a) == Front(t, path, 0) + Back(t, path, 0, xs)
    ensures IsExtent(Flat(j)[0])
  {
    FlatPath(t, path, 0, a);
    assert Flat(t)[|Bef(t, path, 0, a)|] == Flat(sub)[0];
    FrontBack(t, path, 0, a, xs);
    Around2(Bef(t, path, 0, a), Front(sub, path, a), Back(sub, path, a, xs), Aft(t, path, 0, a));
  }

  lemma {:induction false} JoinPlaced(m0: map<nat, Node>, f: map<nat, Node>, sub: Tree, h: nat, cap: nat,
                                      path: seq<PathEnt>, a: nat, p: nat, lt: Tree, rt: Tree, ins: nat, j: Tree)
    requires OnPath(sub, path, a) && sub.Inner? && p == path[a].pos && h > 0
    requires Stored(m0, sub, h, cap) && Shape(sub) && Distinct(sub)
    requires Stored(f, lt, h - 1, cap) && Stored(f, rt, h - 1, cap)
    requires |sub.es| < MaxOf(sub.blk, cap)
    requires j == JoinOf(sub, p, lt, rt, ins)
    requires sub.blk in f && f[sub.blk] == Node(j.es, MaxOf(sub.blk, cap), h)
    requires forall b :: b in m0 && b != sub.blk && (forall j :: a + 1 <= j < |path| ==> path[j].blk != b) ==>
               b in f && f[b] == m0[b]
    ensures Stored(f, j, h, cap)
  {
    forall c | c in m0 && Count(sub, c) > 0 && c != sub.blk && Count(sub.kids[p], c) == 0
      ensures c in f && f[c] == m0[c]
    {
      PathBelow(sub, path, a, c);
    }
    JoinStored(m0, f, sub, h, cap, p, lt, rt, ins);
  }

  /** When the new block goes to the left half, the search path still leads there. */
  lemma {:induction false} JoinFound(t: Tree, path: seq<PathEnt>, a: nat, b: nat, lt: Tree, rt: Tree, ins: nat,
          sub: Tree, j: Tree)
    requires OnPath(t, path, 0) && Found(t, path, 0, b) && a + 1 < |path|
    requires sub == SubAt(t, path, 0, a) && sub.Inner? && 0 <= path[a].pos < |sub.kids| == |sub.es|
    requires Found(sub, path, a, b) && Found(lt, path, a + 1, b) && b < ins
    requires j == JoinOf(sub, path[a].pos, lt, rt, ins)
    ensures Found(Put(t, path, 0, a, j, false), path, 0, b)
  {
    var p := path[a].pos;
    assert j.es[p] == sub.es[p] && j.es[p + 1] == Index(ins, rt.blk) && j.kids[p] == lt;
    FoundPut(t, path, 0, a, j, b);
  }

  lemma {:induction false} FrontBackAll(sub: Tree, path: seq<PathEnt>, i: nat)
    requires OnPath(sub, path, i)
    ensures Flat(sub) == Front(sub, path, i) + Back(sub, path, i, [])
    decreases sub
  {
    var p := path[i].pos;
    if sub.Leaf? {
      if 0 <= p < |sub.es| {
        assert sub.es[..p + 1] + ([] + sub.es[p + 1..]) == sub.es;
      } else {
        assert [] + ([] + sub.es) == sub.es;
      }
    } else {
      FrontBackAll(sub.kids[p], path, i + 1);
      FlatAllAt(sub.kids, p);
      Around(FlatAll(sub.kids[..p]), Front(sub.kids[p], path, i + 1), Back(sub.kids[p], path, i + 1, []),
             FlatAll(sub.kids[p + 1..]));
    }
  }

  lemma {:induction false} SortedDrop(a: seq<Entry>, g: seq<Entry>, b: seq<Entry>, f: seq<Entry>)
    requires Sorted(f) && f == a + g + b
    ensures Sorted(a + b)
  {
    var h := a + b;
    forall i | 0 <= i < |h|
      ensures IsExtent(h[i])
    {
      assert f[if i < |a| then i else i + |g|] == h[i];
    }
    forall i, j | 0 <= i < j < |h|
      ensures End(h[i]) <= h[j].first
    {
      var i', j' := if i < |a| then i else i + |g|, if j < |a| then j else j + |g|;
      assert f[i'] == h[i] && f[j'] == h[j];
    }
  }

  /** Dropping a run of extents loses exactly its mappings. */
  lemma {:induction false} ViewDrop(a: seq<Entry>, g: seq<Entry>, b: seq<Entry>, f: seq<Entry>)
    requires Sorted(f) && f == a + g + b
    ensures View(a + b) == View(f) - View(g).Keys
    ensures View(a + b) == View(f) <==> g == []
  {
    SortedDrop(a, g, b, f);
    var h := a + b;
    forall k
      ensures k in View(h) <==> k in View(f) && k !in View(g)
      ensures k in View(h) ==> View(f)[k] == View(h)[k]
    {
      DropAt(a, g, b, f, k);
    }
    if g != [] {
      DropFirst(a, g, b, f);
    } else {
      assert f == h;
    }
  }

  lemma {:induction false} DropFirst(a: seq<Entry>, g: seq<Entry>, b: seq<Entry>, f: seq<Entry>)
    requires Sorted(f) && f == a + g + b && g != []
    ensures g[0].first in View(f) && g[0].first in View(g)
  {
    assert f[|a|] == g[0];
    assert Covers(g[0], g[0].first);
    ViewDomain(f, g[0].first);
    ViewDomain(g, g[0].first);
  }

  lemma {:induction false} DropAt(a: seq<Entry>, g: seq<Entry>, b: seq<Entry>, f: seq<Entry>, k: nat)
    requires Sorted(f) && f == a + g + b && Sorted(a + b)
    ensures k in View(a + b) <==> k in View(f) && k !in View(g)
    ensures k in View(a + b) ==> View(f)[k] == View(a + b)[k]
  {
    hide View, Covers, Sorted;
    var h := a + b;
    ViewDomain(h, k);
    ViewDomain(f, k);
    if k in View(h) {
      var i :| 0 <= i < |h| && Covers(h[i], k);
      KeptAt(a, g, b, f, i, k);
    } else if k in View(f) {
      var i :| 0 <= i < |f| && Covers(f[i], k);
      OneOf(a, g, b, f, i, k);
    }
  }

  lemma {:induction false} KeptAt(a: seq<Entry>, g: seq<Entry>, b: seq<Entry>, f: seq<Entry>, i: nat, k: nat)
    requires Sorted(f) && f == a + g + b && Sorted(a + b) && i < |a + b| && Covers((a + b)[i], k)
    ensures k in View(f) && k !in View(g) && k in View(a + b) && View(f)[k] == View(a + b)[k]
  {
    var h := a + b;
    var i' := if i < |a| then i else i + |g|;
    assert f[i'] == h[i];
    ViewAt(h, i, k);
    ViewAt(f, i', k);
    ViewDomain(g, k);
    hide View;
    forall j | 0 <= j < |g|
      ensures !Covers(g[j], k)
    {
      assert f[|a| + j] == g[j];
    }
  }

  lemma {:induction false} OneOf(a: seq<Entry>, g: seq<Entry>, b: seq<Entry>, f: seq<Entry>, i: nat, k: nat)
    requires f == a + g + b && i < |f| && Covers(f[i], k)
    ensures k in View(a + b) || k in View(g)
  {
    ViewDomain(a + b, k);
    ViewDomain(g, k);
    hide View, Covers;
    if |a| <= i < |a| + |g| {
      assert g[i - |a|] == f[i];
    } else {
      assert (a + b)[if i < |a| then i else i - |g|] == f[i];
    }
  }

  /** The split given up after level i was cut: the right half is gone, the rest is a proper tree. */
  lemma {:induction false} SplitAbort(m0: map<nat, Node>, m: map<nat, Node>, m': map<nat, Node>, t: Tree, cap: nat,
          path: seq<PathEnt>, i: nat, xs: seq<Entry>, b: nat, lt: Tree, rt: Tree, news: seq<nat>, ins: nat, sub: Tree)
    requires Held(m0, t, cap) && Found(t, path, 0, b) && OnPath(t, path, 0) && Walkable(m0, path)
    requires 0 < i < |path| && i <= m0[0].depth && sub == SubAt(t, path, 0, i) && OnPath(sub, path, i)
    requires CutInv(sub, path, i, xs, b, lt, rt, news, ins)
    requires CutStored(m0, m, m0[0].depth - i, cap, path, i, xs, lt, rt, news)
    requires m' == map c | c in m && c !in news :: m[c]
    ensures var t' := Put(t, path, 0, i, lt, false);
            && Held(m', t', cap) && Flat(t') == Kept(t, path, i)
            && forall c :: Count(t', c) + CountAll(LooseAt(t, path, i), c) == Count(t, c)
  {
    SubFacts(m0, t, cap, path, b, i);
    var bef, aft := Bef(t, path, 0, i), Aft(t, path, 0, i);
    FlatPath(t, path, 0, i);
    FrontBackAll(sub, path, i);
    Around3(bef, Front(sub, path, i), Back(sub, path, i, []), aft);
    SortedDrop(bef + Front(sub, path, i), Back(sub, path, i, []), aft, Flat(t));
    AbortStored(m0, m, m', cap, path, i, xs, lt, rt, news, m0[0].depth - i);
    JoinFirst(t, path, i, sub, lt);
    AbortCount(t, path, i, sub, lt, rt, news, m0, m');
    PutHeld(m0, m', t, cap, path, i, lt);
    LooseAll(sub, path, i, lt, rt, news);
  }

  lemma {:induction false} LooseAll(sub: Tree, path: seq<PathEnt>, i: nat, lt: Tree, rt: Tree, news: seq<nat>)
    requires OnPath(sub, path, i) && Shared(sub, lt, rt, news)
    requires forall c :: c in news ==> Count(sub, c) == 0
    requires forall c :: c !in news ==> Count(rt, c) == CountAll(Loose(sub, path, i), c)
    ensures forall c :: Count(lt, c) + CountAll(Loose(sub, path, i), c) == Count(sub, c)
  {
    forall c
      ensures Count(lt, c) + CountAll(Loose(sub, path, i), c) == Count(sub, c)
    {
      LooseCount(sub, path, i, c);
    }
  }

  lemma {:induction false} LooseCount(sub: Tree, path: seq<PathEnt>, i: nat, c: nat)
    requires OnPath(sub, path, i)
    ensures CountAll(Loose(sub, path, i), c) <= Count(sub, c)
    decreases sub
  {
    if sub.Inner? {
      LooseStep(sub, path, i, c);
      LooseCount(sub.kids[path[i].pos], path, i + 1, c);
      CountAllAt(sub.kids, path[i].pos, c);
    }
  }

  lemma {:induction false} JoinFirst(t: Tree, path: seq<PathEnt>, a: nat, sub: Tree, j: Tree)
    requires OnPath(t, path, 0) && a < |path| && sub == SubAt(t, path, 0, a) && Sorted(Flat(t))
    requires Flat(j) != [] && Flat(sub) != [] && Flat(j)[0] == Flat(sub)[0]
    ensures IsExtent(Flat(j)[0])
  {
    FlatPath(t, path, 0, a);
    assert Flat(t)[|Bef(t, path, 0, a)|] == Flat(sub)[0];
  }

  lemma {:induction false} Around3(a: seq<Entry>, b: seq<Entry>, c: seq<Entry>, d: seq<Entry>)
    ensures a + (b + c) + d == (a + b) + c + d
  {
  }

  lemma {:induction false} AbortStored(m0: map<nat, Node>, m: map<nat, Node>, m': map<nat, Node>, cap: nat,
          path: seq<PathEnt>, i: nat, xs: seq<Entry>, lt: Tree, rt: Tree, news: seq<nat>, h: nat)
    requires CutStored(m0, m, h, cap, path, i, xs, lt, rt, news)
    requires forall c :: c in news ==> Count(lt, c) == 0
    requires m' == map c | c in m && c !in news :: m[c]
    ensures Stored(m', lt, h, cap)
    ensures forall c :: c in m' <==> c in m0
    ensures forall c :: c in m0 && (forall j :: i <= j < |path| ==> path[j].blk != c) ==> c in m' && m'[c] == m0[c]
  {
    assert news[0] in news;
    StoredFrame(Filled(m, news, xs, cap), m', lt, h, cap);
  }

  lemma {:induction false} AbortCount(t: Tree, path: seq<PathEnt>, i: nat, sub: Tree, lt: Tree, rt: Tree,
          news: seq<nat>, m0: map<nat, Node>, m': map<nat, Node>)
    requires OnPath(t, path, 0) && i < |path| && sub == SubAt(t, path, 0, i)
    requires Shared(sub, lt, rt, news)
    requires forall b :: Count(t, b) <= if b in m0 then 1 else 0
    requires forall b :: b in m' <==> b in m0
    ensures forall b :: Count(t, b) - Count(SubAt(t, path, 0, i), b) + Count(lt, b) <= if b in m' then 1 else 0
  {
    forall b
      ensures Count(lt, b) <= Count(sub, b)
    {
      if b in news {
      }
    }
  }

  /** Each new block starts with an index to the one below it; the new leaf is empty if x goes there. */
  ghost predicate Chain(m: map<nat, Node>, news: seq<nat>, ins: nat, xs: seq<Entry>, cap: nat) {
    && news != []
    && (forall c :: c in news ==> c in m)
    && (xs != [] ==> m[news[0]] == Node([], cap, 0))
    && (forall j :: 1 <= j < |news| ==> m[news[j]].entries != [] && m[news[j]].entries[0] == Index(ins, news[j - 1]))
    && (forall i, j :: 0 <= i < j < |news| ==> news[i] != news[j])
  }

  /** A split may start: the path is the search path for x in a proper tree. */
  ghost predicate Ready(m0: map<nat, Node>, t: Tree, cap: nat, path: seq<PathEnt>, x: Entry) {
    && Held(m0, t, cap) && OnPath(t, path, 0) && Found(t, path, 0, x.first) && Walkable(m0, path)
    && IsExtent(x) && Apart(x, Flat(t)) && |path| == m0[0].depth + 1
  }

  /** The subtree kid below level i of the path has been cut, levels 0..i are as they were. */
  ghost predicate SplitState(m0: map<nat, Node>, m: map<nat, Node>, cap: nat, path: seq<PathEnt>, i: int, x: Entry,
                             xs: seq<Entry>, kid: Tree, lt: Tree, rt: Tree, news: seq<nat>, ins: nat)
  {
    && -1 <= i < |path| && |news| == |path| - 1 - i
    && if i == |path| - 1 then
         m == m0
       else
         && OnPath(kid, path, i + 1)
         && CutInv(kid, path, i + 1, xs, x.first, lt, rt, news, ins)
         && CutStored(m0, m, |path| - 2 - i, cap, path, i + 1, xs, lt, rt, news)
         && Chain(m, news, ins, xs, cap)
         && LeafAfterCut(m0, m, path)
  }

  /** The old leaf ends with its current extent. */
  ghost predicate LeafAfterCut(m0: map<nat, Node>, m: map<nat, Node>, path: seq<PathEnt>)
    requires path != []
  {
    var e := path[|path| - 1];
    && e.blk in m0 && e.blk in m && 0 <= e.pos < |m0[e.blk].entries|
    && m[e.blk].entries == m0[e.blk].entries[..e.pos + 1]
  }

  /** What the first cut is decided by: the extent after the current one, or x itself. */
  ghost predicate SplitPoint(es: seq<Entry>, cur: int, cap: nat, x: Entry, xs: seq<Entry>, ins: nat) {
    && 0 <= cur < |es| == cap
    && if cur + 1 < cap then xs == [] && ins == es[cur + 1].first else xs == [x] && ins == x.first
  }

  /** A path node that has not been cut yet. */
  lemma {:induction false} Uncut(m0: map<nat, Node>, m: map<nat, Node>, cap: nat, path: seq<PathEnt>, i: nat, x: Entry,
                                 xs: seq<Entry>, kid: Tree, lt: Tree, rt: Tree, news: seq<nat>, ins: nat)
    requires Walkable(m0, path)
    requires SplitState(m0, m, cap, path, i, x, xs, kid, lt, rt, news, ins)
    ensures path[i].blk in m && m[path[i].blk] == m0[path[i].blk]
    ensures forall b :: b in m <==> b in m0 || b in news
    ensures forall b :: b in news ==> b !in m0 && b != 0
  {
  }

  lemma {:induction false} FirstCut(m0: map<nat, Node>, m: map<nat, Node>, cap: nat, path: seq<PathEnt>, x: Entry,
                                    xs: seq<Entry>, ins: nat, nb: nat, kid: Tree, lt: Tree, rt: Tree)
    requires |path| > 1 && IsExtent(x)
    requires kid.Leaf? && Shape(kid) && OnPath(kid, path, |path| - 1) && kid.blk in m0 && kid.blk != 0
    requires m0[kid.blk].entries == kid.es
    requires AtPos(kid.es, path[|path| - 1].pos, x.first)
    requires var cur := path[|path| - 1].pos;
             && SplitPoint(kid.es, cur, cap, x, xs, ins)
             && lt == Leaf(kid.blk, kid.es[..cur + 1])
             && rt == Leaf(nb, if xs == [] then kid.es[cur + 1..] else xs)
             && m == m0[nb := Node(kid.es[cur + 1..], cap, 0)][kid.blk := Node(kid.es[..cur + 1], cap, 0)]
    requires nb !in m0 && nb != 0
    ensures SplitState(m0, m, cap, path, |path| - 2, x, xs, kid, lt, rt, [nb], ins)
  {
    hide CutInv, CutStored, Shape, AtPos, IsExtent;
    SplitBase(m0, m, cap, path, |path| - 1, x, nb, xs, ins, kid, lt, rt);
  }

  lemma {:induction false} ChainStep(m: map<nat, Node>, m': map<nat, Node>, news: seq<nat>, ins: nat, xs: seq<Entry>,
          cap: nat, nb: nat, blk: nat, n: Node)
    requires Chain(m, news, ins, xs, cap) && nb !in m && blk !in news && n.entries != []
    requires n.entries[0] == Index(ins, news[|news| - 1]) && nb != blk
    requires nb in m' && m'[nb] == n && forall c :: c in m && c != blk ==> c in m' && m'[c] == m[c]
    ensures Chain(m', news + [nb], ins, xs, cap)
  {
    var news' := news + [nb];
    forall j | 1 <= j < |news'|
      ensures m'[news'[j]].entries != [] && m'[news'[j]].entries[0] == Index(ins, news'[j - 1])
    {
      if j < |news| {
        assert news[j] in news;
      }
    }
    assert news[0] in news;
  }

  lemma {:induction false} NextCut(m0: map<nat, Node>, m: map<nat, Node>, m': map<nat, Node>, cap: nat,
          path: seq<PathEnt>, i: nat, x: Entry, xs: seq<Entry>, sub: Tree, lt: Tree, rt: Tree, news: seq<nat>, ins: nat,
          nb: nat)
    requires 0 < i < |path| - 1 && Walkable(m0, path)
    requires OnPath(sub, path, i) && sub.Inner? && Stored(m0, sub, |path| - 1 - i, cap) && Shape(sub) && Distinct(sub)
    requires sub.blk != 0 && |sub.es| == cap && AtPos(sub.es, path[i].pos, x.first)
    requires forall c :: c !in m0 ==> Count(sub, c) == 0
    requires SplitState(m0, m, cap, path, i, x, xs, sub.kids[path[i].pos], lt, rt, news, ins)
    requires nb !in m && nb != 0
    requires m' == m[nb := Node([Index(ins, rt.blk)] + sub.es[path[i].pos + 1..], cap, |path| - 1 - i)]
                    [sub.blk := Node(sub.es[..path[i].pos + 1], cap, |path| - 1 - i)]
    ensures SplitState(m0, m', cap, path, i - 1, x, xs, sub, LeftOf(sub, path[i].pos, lt),
                       RightOf(sub, path[i].pos, rt, nb, ins), news + [nb], ins)
  {
    hide Stored, Halves, Flat, Found, Shape, Chain, CutStored, Count;
    Uncut(m0, m, cap, path, i, x, xs, sub.kids[path[i].pos], lt, rt, news, ins);
    CutStep(sub, path, i, xs, x.first, lt, rt, news, ins, nb);
    CutStoredStep(m0, m, m', sub, |path| - 1 - i, cap, path, i, xs, lt, rt, news, ins, nb);
    ChainStep(m, m', news, ins, xs, cap, nb, path[i].blk, m'[nb]);
    assert path[|path| - 1].blk != sub.blk;
    assert (news + [nb])[|news + [nb]| - 1] == nb;
  }

  lemma {:induction false} LeafCut(m0: map<nat, Node>, t: Tree, m': map<nat, Node>, cap: nat, path: seq<PathEnt>,
                                   x: Entry, xs: seq<Entry>, ins: nat, nb: nat)
    returns (kid: Tree, lt: Tree, rt: Tree)
    requires Ready(m0, t, cap, path, x) && |path| > 1
    requires SplitPoint(m0[path[|path| - 1].blk].entries, path[|path| - 1].pos, cap, x, xs, ins)
    requires nb !in m0 && nb != 0
    requires var n := m0[path[|path| - 1].blk]; var p := path[|path| - 1].pos;
             m' ==
                 m0[nb := Node([] + n.entries[p + 1..], cap, 0)][path[|path| - 1].blk := n.(entries := n.entries[..p
                                                                     + 1])]
    ensures SplitState(m0, m', cap, path, |path| - 2, x, xs, kid, lt, rt, [nb], ins)
    ensures kid == SubAt(t, path, 0, |path| - 1)
  {
    var d := |path| - 1;
    SubFacts(m0, t, cap, path, x.first, d);
    kid := SubAt(t, path, 0, d);
    lt := Leaf(kid.blk, kid.es[..path[d].pos + 1]);
    rt := Leaf(nb, if xs == [] then kid.es[path[d].pos + 1..] else xs);
    assert [] + kid.es[path[d].pos + 1..] == kid.es[path[d].pos + 1..];
    FirstCut(m0, m', cap, path, x, xs, ins, nb, kid, lt, rt);
  }

  lemma {:induction false} InnerCut(m0: map<nat, Node>, t: Tree, m: map<nat, Node>, m': map<nat, Node>, cap: nat,
          path: seq<PathEnt>, i: nat, x: Entry, xs: seq<Entry>, kid: Tree, lt: Tree, rt: Tree, news: seq<nat>, ins: nat,
          nb: nat)
    returns (kid': Tree, lt': Tree, rt': Tree)
    requires Ready(m0, t, cap, path, x)
    requires 0 < i < |path| - 1 && |m0[path[i].blk].entries| == cap
    requires SplitState(m0, m, cap, path, i, x, xs, kid, lt, rt, news, ins)
    requires kid == SubAt(t, path, 0, i + 1) && news != [] && news[|news| - 1] == rt.blk
    requires nb !in m && nb != 0
    requires var n := m0[path[i].blk]; var p := path[i].pos;
             m' == m[nb := Node([Index(ins, rt.blk)] + n.entries[p + 1..], cap, |path| - 1 - i)]
                    [path[i].blk := n.(entries := n.entries[..p + 1])]
    ensures SplitState(m0, m', cap, path, i - 1, x, xs, kid', lt', rt', news + [nb], ins)
    ensures kid' == SubAt(t, path, 0, i)
  {
    SubFacts(m0, t, cap, path, x.first, i);
    kid' := SubAt(t, path, 0, i);
    NextSub(t, path, 0, i);
    lt', rt' := LeftOf(kid', path[i].pos, lt), RightOf(kid', path[i].pos, rt, nb, ins);
    NextCut(m0, m, m', cap, path, i, x, xs, kid', lt, rt, news, ins, nb);
  }

  /** One iteration of the loop in ext4_ext_split_node. */
  lemma {:induction false} LevelCut(m0: map<nat, Node>, t: Tree, m: map<nat, Node>, m': map<nat, Node>, cap: nat,
          path: seq<PathEnt>, i: nat, x: Entry, xs: seq<Entry>, kid: Tree, lt: Tree, rt: Tree, news: seq<nat>, ins: nat,
          nb: nat, n: Node)
    returns (kid': Tree, lt': Tree, rt': Tree)
    requires Ready(m0, t, cap, path, x)
    requires 0 < i < |path| && n == m0[path[i].blk] && |n.entries| == cap && 0 <= path[i].pos < cap
    requires SplitPoint(m0[path[|path| - 1].blk].entries, path[|path| - 1].pos, cap, x, xs, ins)
    requires SplitState(m0, m, cap, path, i, x, xs, kid, lt, rt, news, ins)
    requires i < |path| - 1 ==> kid == SubAt(t, path, 0, i + 1)
    requires nb !in m && nb != 0
    requires var es := (if news == [] then [] else [Index(ins, news[|news| - 1])]) + n.entries[path[i].pos + 1..];
             m' == m[nb := Node(es, cap, |path| - 1 - i)][path[i].blk := n.(entries := n.entries[..path[i].pos + 1])]
    ensures SplitState(m0, m', cap, path, i - 1, x, xs, kid', lt', rt', news + [nb], ins)
    ensures kid' == SubAt(t, path, 0, i)
  {
    if i == |path| - 1 {
      assert news == [] && news + [nb] == [nb];
      kid', lt', rt' := LeafCut(m0, t, m', cap, path, x, xs, ins, nb);
    } else {
      kid', lt', rt' := InnerCut(m0, t, m, m', cap, path, i, x, xs, kid, lt, rt, news, ins, nb);
    }
  }

  lemma {:induction false} BackFirst(sub: Tree, path: seq<PathEnt>, i: nat, xs: seq<Entry>)
    requires OnPath(sub, path, i)
    ensures Back(sub, path, i, xs) == xs + Back(sub, path, i, [])
    decreases sub
  {
    var p := path[i].pos;
    if sub.Inner? {
      BackFirst(sub.kids[p], path, i + 1, xs);
      SeqAssoc(xs, Back(sub.kids[p], path, i + 1, []), FlatAll(sub.kids[p + 1..]));
    } else {
      assert [] + sub.es == sub.es;
      if 0 <= p < |sub.es| {
        assert [] + sub.es[p + 1..] == sub.es[p + 1..];
      }
    }
  }

  lemma {:induction false} PointFacts(m0: map<nat, Node>, t: Tree, cap: nat, path: seq<PathEnt>, x: Entry,
          xs: seq<Entry>, ins: nat)
    requires Ready(m0, t, cap, path, x)
    requires SplitPoint(m0[path[|path| - 1].blk].entries, path[|path| - 1].pos, cap, x, xs, ins)
    ensures path != [] && OnPath(t, path, 0) && Found(t, path, 0, x.first) && Shape(t) && Sorted(Flat(t))
    ensures IsExtent(x) && x.Extent? && Apart(x, Flat(t)) && (xs == [] || xs == [x])
    ensures var leaf, pos := SubAt(t, path, 0, |path| - 1), path[|path| - 1].pos;
            && OnPath(leaf, path, |path| - 1) && leaf.Leaf? && AtPos(leaf.es, pos, x.first)
            && (xs != [] ==> 0 < pos == |leaf.es| - 1) && (xs == [] ==> x.first < ins)
  {
    hide Sorted, Shape, Apart, Flat, Count;
    SubFacts(m0, t, cap, path, x.first, |path| - 1);
    StoredNode(m0, SubAt(t, path, 0, |path| - 1), 0, cap);
  }

  /** Front, x if it opens the right half, and the rest: in order, with the map as it should be. */
  lemma {:induction false} WholeSorted(m0: map<nat, Node>, t: Tree, cap: nat, path: seq<PathEnt>, x: Entry,
          xs: seq<Entry>, ins: nat)
    requires Ready(m0, t, cap, path, x)
    requires SplitPoint(m0[path[|path| - 1].blk].entries, path[|path| - 1].pos, cap, x, xs, ins)
    ensures Sorted(Front(t, path, 0) + Back(t, path, 0, xs))
    ensures xs == [] ==> Front(t, path, 0) + Back(t, path, 0, xs) == Flat(t) && x.first < ins
    ensures xs != [] ==>
              && View(Front(t, path, 0) + Back(t, path, 0, xs)) == View(Flat(t)) + RangeMap(x)
              && OneMore(Flat(t), Front(t, path, 0) + Back(t, path, 0, xs), x)
  {
    hide *;
    PointFacts(m0, t, cap, path, x, xs, ins);
    var d := |path| - 1;
    var leaf := SubAt(t, path, 0, d);
    FrontBackAll(t, path, 0);
    if xs != [] {
      BackFirst(t, path, 0, xs);
      FrontBack(t, path, 0, d, []);
      WholeGap(t, path, x, leaf);
      var f, g := Flat(t), |Front(t, path, 0)|;
      assert f[..g] == Front(t, path, 0) && f[g..] == Back(t, path, 0, []);
      assert f[..g] + [x] + f[g..] == Front(t, path, 0) + Back(t, path, 0, xs);
      SortedAdd(f, g, x);
      OneMoreAt(f, g, x);
    }
  }

  lemma {:induction false} LastGap(a: seq<Entry>, es: seq<Entry>, b: seq<Entry>, cur: nat, x: Entry, f: seq<Entry>)
    requires f == a + es + b && Sorted(f) && IsExtent(x) && Apart(x, f)
    requires AtPos(es, cur, x.first) && 0 < cur < |es|
    requires b != [] ==> x.first < b[0].first
    requires a != [] ==> es[0].first <= x.first
    ensures Gap(f, |a| + cur + 1, x)
  {
    hide Gap;
    FindGap(a, es, b, cur, x);
    assert f[|a| + cur] == es[cur];
  }

  lemma {:induction false} LeafFront(leaf: Tree, path: seq<PathEnt>, d: nat)
    requires leaf.Leaf? && OnPath(leaf, path, d)
    requires 0 <= path[d].pos < |leaf.es|
    ensures |Front(leaf, path, d)| == path[d].pos + 1 && Flat(leaf) == leaf.es
  {
  }

  lemma {:induction false} WholeGap(t: Tree, path: seq<PathEnt>, x: Entry, leaf: Tree)
    requires path != [] && OnPath(t, path, 0) && Found(t, path, 0, x.first) && Shape(t) && Sorted(Flat(t))
    requires IsExtent(x) && Apart(x, Flat(t))
    requires leaf == SubAt(t, path, 0, |path| - 1) && OnPath(leaf, path, |path| - 1) && leaf.Leaf?
    requires AtPos(leaf.es, path[|path| - 1].pos, x.first) && 0 < path[|path| - 1].pos == |leaf.es| - 1
    ensures Gap(Flat(t), |Front(t, path, 0)|, x)
  {
    hide *;
    var d := |path| - 1;
    var a, b := Bef(t, path, 0, d), Aft(t, path, 0, d);
    SearchAfter(t, path, 0, x.first);
    SearchBefore(t, path, 0, x.first);
    FlatPath(t, path, 0, d);
    LeafFront(leaf, path, d);
    LastGap(a, leaf.es, b, path[d].pos, x, Flat(t));
    FrontBack(t, path, 0, d, []);
  }

  /** The key of the new right half is beyond the key of the left one. */
  lemma {:induction false} KeyBefore(t: Tree, path: seq<PathEnt>, a: nat, xs: seq<Entry>, sub: Tree, lt: Tree, rt: Tree,
          ins: nat)
    requires OnPath(t, path, 0) && a + 1 < |path| && sub == SubAt(t, path, 0, a) && OnPath(sub, path, a) && sub.Inner?
             && Shape(sub)
    requires Halves(sub.kids[path[a].pos], lt, rt, ins, Front(sub.kids[path[a].pos], path, a + 1),
                    Back(sub.kids[path[a].pos], path, a + 1, xs))
    requires Sorted(Front(t, path, 0) + Back(t, path, 0, xs))
    ensures sub.es[path[a].pos].first < ins
  {
    var p := path[a].pos;
    FrontBack(t, path, 0, a, xs);
    var f := Front(t, path, 0) + Back(t, path, 0, xs);
    var pre := Bef(t, path, 0, a) + FlatAll(sub.kids[..p]);
    assert f[|pre|] == Flat(lt)[0];
    assert f[|Front(t, path, 0)|] == Flat(rt)[0];
    assert KeyOk(p, sub.es[p].first, Flat(sub.kids[p])[0]);
  }

  /** After a split the blocks hold a proper tree, once the new leaf is filled with xs. */
  ghost predicate SplitHeld(m0: map<nat, Node>, t0: Tree, m: map<nat, Node>, t: Tree, cap: nat, path: seq<PathEnt>,
          at: nat, xs: seq<Entry>, news: seq<nat>)
  {
    && 0 < at < |path| && |news| == |path| - at > 0
    && (forall c :: c in news ==> c !in m0 && c != 0)
    && (forall c :: c in m <==> c in m0 || c in news)
    && Held(Filled(m, news, xs, cap), t, cap)
    && (NoLeak(m0, t0) ==> NoLeak(Filled(m, news, xs, cap), t))
  }

  /** x belongs to the left half: the path still leads to its leaf, which now has room. */
  ghost predicate SplitLeft(m0: map<nat, Node>, t0: Tree, m: map<nat, Node>, t: Tree, cap: nat, path: seq<PathEnt>,
          x: Entry)
  {
    && path != []
    && Flat(t) == Flat(t0) && OnPath(t, path, 0) && Found(t, path, 0, x.first)
    && LeafAfterCut(m0, m, path) && path[|path| - 1].pos + 1 < cap
  }

  /** x belongs to the new leaf: the chain of first entries over it leads there. */
  ghost predicate SplitRight(m0: map<nat, Node>, t0: Tree, m: map<nat, Node>, t: Tree, cap: nat, path: seq<PathEnt>,
          at: nat, x: Entry, news: seq<nat>)
  {
    && 0 < at < |path| && news != []
    && View(Flat(t)) == View(Flat(t0)) + RangeMap(x) && OneMore(Flat(t0), Flat(t), x)
    && Chain(m, news, x.first, [x], cap)
    && (forall j :: 0 <= j < at - 1 ==> path[j].blk in m0 && path[j].blk in m && m[path[j].blk] == m0[path[j].blk])
    && path[at - 1].blk in m && 0 <= path[at - 1].pos && path[at - 1].pos + 1 < |m[path[at - 1].blk].entries|
    && m[path[at - 1].blk].entries[path[at - 1].pos + 1] == Index(x.first, news[|news| - 1])
  }

  /** What is linked above level at leaves the chain below alone. */
  lemma {:induction false} JoinRight(m0: map<nat, Node>, m: map<nat, Node>, m': map<nat, Node>, t: Tree, t': Tree,
          cap: nat, path: seq<PathEnt>, at: nat, x: Entry, news: seq<nat>, rt: Tree)
    requires Walkable(m0, path) && 0 < at < |path|
    requires Touched(m0, m, path, at, news) && Chain(m, news, x.first, [x], cap) && rt.blk == news[|news| - 1]
    requires View(Flat(t')) == View(Flat(t)) + RangeMap(x) && OneMore(Flat(t), Flat(t'), x)
    requires path[at - 1].blk in m
    requires var n := m0[path[at - 1].blk]; var p := path[at - 1].pos;
             m' ==
                 m[path[at - 1].blk := n.(entries := n.entries[..p + 1] + [Index(x.first, rt.blk)]
                                          + n.entries[p + 1..])]
    ensures SplitRight(m0, t, m', t', cap, path, at, x, news)
  {
    hide View, Flat, RangeMap;
    forall j | 0 <= j < at - 1
      ensures path[j].blk in m' && m'[path[j].blk] == m0[path[j].blk]
    {
      assert path[j].blk != path[at - 1].blk;
    }
    assert path[at - 1].blk !in news;
    assert news[0] in news;
    assert forall j :: 1 <= j < |news| ==> news[j] in news;
  }

  lemma {:induction false} ShapeSize(t: Tree)
    requires Shape(t)
    ensures t.Inner? ==> |t.es| == |t.kids|
  {
  }

  lemma {:induction false} StoredNode(m: map<nat, Node>, t: Tree, h: nat, cap: nat)
    requires Stored(m, t, h, cap)
    ensures t.blk in m && m[t.blk] == Node(t.es, MaxOf(t.blk, cap), h)
  {
  }

  /** The tree after ext4_ext_insert_index linked the right half. */
  lemma {:induction false} JoinTree(m0: map<nat, Node>, m: map<nat, Node>, m': map<nat, Node>, t: Tree, cap: nat,
          path: seq<PathEnt>, at: nat, x: Entry, xs: seq<Entry>, kid: Tree, lt: Tree, rt: Tree, news: seq<nat>,
          ins: nat)
    returns (t': Tree)
    requires Ready(m0, t, cap, path, x) && 0 < at < |path|
    requires SplitPoint(m0[path[|path| - 1].blk].entries, path[|path| - 1].pos, cap, x, xs, ins)
    requires SplitState(m0, m, cap, path, at - 1, x, xs, kid, lt, rt, news, ins)
    requires kid == SubAt(t, path, 0, at)
    requires var n := m0[path[at - 1].blk]; |n.entries| < n.max
    requires path[at - 1].blk in m && m[path[at - 1].blk] == m0[path[at - 1].blk]
    requires var n := m0[path[at - 1].blk]; var p := path[at - 1].pos;
             m' == m[path[at - 1].blk := n.(entries := n.entries[..p + 1] + [Index(ins, rt.blk)] + n.entries[p + 1..])]
    ensures SplitHeld(m0, t, m', t', cap, path, at, xs, news)
    ensures xs == [] ==> SplitLeft(m0, t, m', t', cap, path, x)
    ensures xs != [] ==> SplitRight(m0, t, m', t', cap, path, at, x, news)
  {
    hide Halves, Flat, Sorted, Apart, Shape, Stored, Chain, View, Found, Count, Held, NoLeak, CutInv, CutStored, Filled,
        RangeMap, Put, SubAt, LeafAfterCut, SplitHeld, SplitLeft, SplitRight;
    var a := at - 1;
    SubFacts(m0, t, cap, path, x.first, a);
    NextSub(t, path, 0, a);
    var sub := SubAt(t, path, 0, a);
    var j := JoinOf(sub, path[a].pos, lt, rt, ins);
    WholeSorted(m0, t, cap, path, x, xs, ins);
    t' := Put(t, path, 0, a, j, false);
    StoredNode(m0, sub, |path| - at, cap);
    assert |sub.es| == |sub.kids| by {
      ShapeSize(sub);
    }
    JoinHeld(m0, m, m', t, cap, path, at, x, xs, lt, rt, news, ins, sub, j, t');
    if xs == [] {
      JoinLeft(m0, m, m', t, cap, path, at, x, lt, rt, news, ins, sub, j, t', m'[path[at - 1].blk]);
    } else {
      CutTouched(m0, m, |path| - 1 - at, cap, path, at, xs, x.first, sub.kids[path[a].pos], lt, rt, news, ins);
      JoinRight(m0, m, m', t, t', cap, path, at, x, news, rt);
    }
  }

  lemma {:induction false} CutTouched(m0: map<nat, Node>, m: map<nat, Node>, h: nat, cap: nat, path: seq<PathEnt>,
          i: nat, xs: seq<Entry>, b: nat, sub: Tree, lt: Tree, rt: Tree, news: seq<nat>, ins: nat)
    requires OnPath(sub, path, i) && CutInv(sub, path, i, xs, b, lt, rt, news, ins)
    requires CutStored(m0, m, h, cap, path, i, xs, lt, rt, news)
    ensures Touched(m0, m, path, i, news) && rt.blk == news[|news| - 1]
    ensures xs == [] ==> Found(lt, path, i, b)
  {
  }

  lemma {:induction false} JoinHeld(m0: map<nat, Node>, m: map<nat, Node>, m': map<nat, Node>, t: Tree, cap: nat,
          path: seq<PathEnt>, at: nat, x: Entry, xs: seq<Entry>, lt: Tree, rt: Tree, news: seq<nat>, ins: nat,
          sub: Tree, j: Tree, t': Tree)
    requires Ready(m0, t, cap, path, x) && 0 < at < |path|
    requires sub == SubAt(t, path, 0, at - 1) && OnPath(sub, path, at - 1) && sub.Inner? && sub.blk == path[at - 1].blk
    requires m0[path[at - 1].blk] == Node(sub.es, MaxOf(sub.blk, cap), |path| - at) && |sub.es| == |sub.kids|
    requires SplitState(m0, m, cap, path, at - 1, x, xs, sub.kids[path[at - 1].pos], lt, rt, news, ins)
    requires j == JoinOf(sub, path[at - 1].pos, lt, rt, ins) && t' == Put(t, path, 0, at - 1, j, false)
    requires |sub.es| < MaxOf(sub.blk, cap)
    requires m' == m[path[at - 1].blk := Node(j.es, MaxOf(sub.blk, cap), |path| - at)]
    requires Sorted(Front(t, path, 0) + Back(t, path, 0, xs))
    ensures SplitHeld(m0, t, m', t', cap, path, at, xs, news)
    ensures Flat(t') == Front(t, path, 0) + Back(t, path, 0, xs)
  {
    hide Halves, Flat, Sorted, Apart, Shape, Chain, View, Found, Count, Held, NoLeak, CutInv, Filled, Stored, MaxOf,
        JoinOf, LeafAfterCut;
    Uncut(m0, m, cap, path, at - 1, x, xs, sub.kids[path[at - 1].pos], lt, rt, news, ins);
    SplitDone(m0, m, m', t, cap, path, at - 1, xs, x.first, lt, rt, news, ins, sub, j);
  }

  lemma {:induction false} JoinLeft(m0: map<nat, Node>, m: map<nat, Node>, m': map<nat, Node>, t: Tree, cap: nat,
          path: seq<PathEnt>, at: nat, x: Entry, lt: Tree, rt: Tree, news: seq<nat>, ins: nat, sub: Tree, j: Tree,
          t': Tree, n: Node)
    requires Ready(m0, t, cap, path, x) && 0 < at < |path| && path[|path| - 1].pos + 1 < cap
    requires sub == SubAt(t, path, 0, at - 1) && OnPath(sub, path, at - 1) && sub.Inner? && |sub.es| == |sub.kids|
    requires SplitState(m0, m, cap, path, at - 1, x, [], sub.kids[path[at - 1].pos], lt, rt, news, ins)
    requires j == JoinOf(sub, path[at - 1].pos, lt, rt, ins) && t' == Put(t, path, 0, at - 1, j, false)
    requires m' == m[path[at - 1].blk := n]
    requires Flat(t') == Flat(t) && x.first < ins
    ensures SplitLeft(m0, t, m', t', cap, path, x)
  {
    hide Halves, Flat, Sorted, Apart, Shape, Stored, Chain, View, Count, Held, Filled, OnPath, NoLeak, RangeMap,
        SplitPoint, Put, SubAt, Extents, CutInv, CutStored, JoinOf, IsExtent, MaxOf;
    FoundSub(t, path, 0, at - 1, x.first);
    CutTouched(m0, m, |path| - 1 - at, cap, path, at, [], x.first, sub.kids[path[at - 1].pos], lt, rt, news, ins);
    JoinFound(t, path, at - 1, x.first, lt, rt, ins, sub, j);
    FoundOnPath(t', path, 0, x.first);
    assert path[at - 1].blk != path[|path| - 1].blk;
  }

  /** What ext4_ext_split_node compares: x with the first block of the right half, and that block
      with the key it is linked behind. */
  lemma {:induction false} LinkKey(m0: map<nat, Node>, m: map<nat, Node>, t: Tree, cap: nat, path: seq<PathEnt>,
          at: nat, x: Entry, xs: seq<Entry>, kid: Tree, lt: Tree, rt: Tree, news: seq<nat>, ins: nat)
    requires Ready(m0, t, cap, path, x) && 0 < at < |path|
    requires SplitPoint(m0[path[|path| - 1].blk].entries, path[|path| - 1].pos, cap, x, xs, ins)
    requires SplitState(m0, m, cap, path, at - 1, x, xs, kid, lt, rt, news, ins)
    requires kid == SubAt(t, path, 0, at)
    ensures var n := m0[path[at - 1].blk];
            0 <= path[at - 1].pos < |n.entries| && n.entries[path[at - 1].pos].first < ins
    ensures xs == [] <==> x.first < ins
    ensures news != [] && news[|news| - 1] == rt.blk
  {
    hide Flat, Sorted, Apart, Chain, View, Found, Count, CutStored, RangeMap, Halves, Shape;
    var a := at - 1;
    SubFacts(m0, t, cap, path, x.first, a);
    NextSub(t, path, 0, a);
    WholeSorted(m0, t, cap, path, x, xs, ins);
    KeyBefore(t, path, a, xs, SubAt(t, path, 0, a), lt, rt, ins);
  }

  /** The split given up after the levels below i were cut. */
  lemma {:induction false} AbortTree(m0: map<nat, Node>, m: map<nat, Node>, m': map<nat, Node>, t: Tree, cap: nat,
          path: seq<PathEnt>, i: nat, x: Entry, xs: seq<Entry>, kid: Tree, lt: Tree, rt: Tree, news: seq<nat>, ins: nat)
    returns (t': Tree)
    requires Ready(m0, t, cap, path, x) && 0 < i < |path|
    requires SplitState(m0, m, cap, path, i, x, xs, kid, lt, rt, news, ins)
    requires i < |path| - 1 ==> kid == SubAt(t, path, 0, i + 1)
    requires m' == map c | c in m && c !in news :: m[c]
    ensures Held(m', t', cap) && GivenUp(m0, t, path, i + 1, m', t')
  {
    hide Halves, Flat, Sorted, Apart, Shape, Stored, Chain, View, Count, Held, Filled, CutInv, Found;
    if i == |path| - 1 {
      assert m' == m;
      return t;
    }
    SplitAbort(m0, m, m', t, cap, path, i + 1, xs, x.first, lt, rt, news, ins, kid);
    t' := Put(t, path, 0, i + 1, lt, false);
    CutTouchedOnly(m0, m, |path| - 2 - i, cap, path, i + 1, xs, lt, rt, news);
  }

  lemma {:induction false} CutTouchedOnly(m0: map<nat, Node>, m: map<nat, Node>, h: nat, cap: nat, path: seq<PathEnt>,
          i: nat, xs: seq<Entry>, lt: Tree, rt: Tree, news: seq<nat>)
    requires CutStored(m0, m, h, cap, path, i, xs, lt, rt, news)
    ensures forall b :: b in m <==> b in m0 || b in news
    ensures forall b :: b in news ==> b !in m0 && b != 0
  {
  }
}
