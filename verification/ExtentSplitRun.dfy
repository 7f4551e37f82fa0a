/** The state of ext4_ext_split_node between two levels, and how one level leads to the next. */
module ExtentSplitRun {
  import opened ExtentEntries
  import opened ExtentTree
  import opened ExtentPath
  import opened ExtentHeld
  import opened ExtentSplit

  /** The extents of a subtree up to and including the current one of the leaf on the path. */
  ghost function Front(sub: Tree, path: seq<PathEnt>, i: nat): seq<Entry>
    requires OnPath(sub, path, i)
    decreases sub
  {
    var p := path[i].pos;
    if sub.Leaf? then
      if 0 <= p < |sub.es| then sub.es[..p + 1] else []
    else
      FlatAll(sub.kids[..p]) + Front(sub.kids[p], path, i + 1)
  }

  /** The extents after the current one, with xs put before them. */
  ghost function Back(sub: Tree, path: seq<PathEnt>, i: nat, xs: seq<Entry>): seq<Entry>
    requires OnPath(sub, path, i)
    decreases sub
  {
    var p := path[i].pos;
    if sub.Leaf? then
      if 0 <= p < |sub.es| then xs + sub.es[p + 1..] else xs + sub.es
    else
      Back(sub.kids[p], path, i + 1, xs) + FlatAll(sub.kids[p + 1..])
  }

  /** Front and back together are everything, and a larger tree only adds to their outer ends. */
  lemma {:induction false} FrontBack(t: Tree, path: seq<PathEnt>, k: nat, i: nat, xs: seq<Entry>)
    requires OnPath(t, path, k) && k <= i < |path|
    ensures OnPath(SubAt(t, path, k, i), path, i)
    ensures Front(t, path, k) == Bef(t, path, k, i) + Front(SubAt(t, path, k, i), path, i)
    ensures Back(t, path, k, xs) == Back(SubAt(t, path, k, i), path, i, xs) + Aft(t, path, k, i)
    decreases t
  {
    if i > k {
      var p := path[k].pos;
      var kid := t.kids[p];
      FrontBack(kid, path, k + 1, i, xs);
      SeqAssoc(FlatAll(t.kids[..p]), Bef(kid, path, k + 1, i), Front(SubAt(kid, path, k + 1, i), path, i));
      SeqAssoc(Back(SubAt(kid, path, k + 1, i), path, i, xs), Aft(kid, path, k + 1, i), FlatAll(t.kids[p + 1..]));
    } else {
      assert Front(t, path, k) == [] + Front(t, path, k);
      assert Back(t, path, k, xs) == Back(t, path, k, xs) + [];
    }
  }

  /** The subtrees that hang to the right of the path, lowest first. */
  ghost function Loose(sub: Tree, path: seq<PathEnt>, i: nat): seq<Tree>
    requires OnPath(sub, path, i)
    decreases sub
  {
    if sub.Leaf? then [] else Loose(sub.kids[path[i].pos], path, i + 1) + sub.kids[path[i].pos + 1..]
  }

  lemma {:induction false} LooseStep(sub: Tree, path: seq<PathEnt>, i: nat, b: nat)
    requires OnPath(sub, path, i) && sub.Inner?
    ensures CountAll(Loose(sub, path, i), b) ==
            CountAll(Loose(sub.kids[path[i].pos], path, i + 1), b) + CountAll(sub.kids[path[i].pos + 1..], b)
  {
    CountAllConcat(Loose(sub.kids[path[i].pos], path, i + 1), sub.kids[path[i].pos + 1..], b);
  }

  /** What a split that is given up after it has cut the levels from i down keeps of the extents ... */
  ghost function Kept(t: Tree, path: seq<PathEnt>, i: nat): seq<Entry>
    requires OnPath(t, path, 0) && i <= |path|
  {
    if i == |path| then Flat(t) else
      SubOnPath(t, path, 0, i);
      Bef(t, path, 0, i) + Front(SubAt(t, path, 0, i), path, i) + Aft(t, path, 0, i)
  }

  /** ... the extents it drops ... */
  ghost function LostAt(t: Tree, path: seq<PathEnt>, i: nat): seq<Entry>
    requires OnPath(t, path, 0) && i <= |path|
  {
    if i == |path| then [] else
      SubOnPath(t, path, 0, i);
      Back(SubAt(t, path, 0, i), path, i, [])
  }

  /** ... and the subtrees it drops, whose blocks nothing refers to any more. */
  ghost function LooseAt(t: Tree, path: seq<PathEnt>, i: nat): seq<Tree>
    requires OnPath(t, path, 0) && i <= |path|
  {
    if i == |path| then [] else
      SubOnPath(t, path, 0, i);
      Loose(SubAt(t, path, 0, i), path, i)
  }

  /** The split has been given up after it had cut the levels from i down. */
  ghost predicate GivenUp(m: map<nat, Node>, t: Tree, path: seq<PathEnt>, i: nat, m': map<nat, Node>, t': Tree)
    requires OnPath(t, path, 0) && i <= |path|
  {
    && m'.Keys == m.Keys && Flat(t') == Kept(t, path, i)
    && (forall c :: Count(t', c) + CountAll(LooseAt(t, path, i), c) == Count(t, c))
    && (i == |path| ==> m' == m && t' == t)
  }

  /** The blocks with the new right leaf already holding xs. */
  function Filled(m: map<nat, Node>, news: seq<nat>, xs: seq<Entry>, cap: nat): map<nat, Node>
    requires news != []
  {
    if xs == [] then m else m[news[0] := Node(xs, cap, 0)]
  }

  /** Only path nodes from level i down were rewritten, and only the new blocks were added. */
  ghost predicate Touched(m0: map<nat, Node>, m: map<nat, Node>, path: seq<PathEnt>, i: nat, news: seq<nat>) {
    && (forall b :: b in news ==> b !in m0 && b != 0)
    && (forall b :: b in m <==> b in m0 || b in news)
    && (forall b :: b in m0 && (forall j :: i <= j < |path| ==> path[j].blk != b) ==> b in m && m[b] == m0[b])
  }

  /** The subtree sub at level i of the path is shared out between lt and rt. */
  ghost predicate CutInv(sub: Tree, path: seq<PathEnt>, i: nat, xs: seq<Entry>, b: nat,
                         lt: Tree, rt: Tree, news: seq<nat>, ins: nat)
    requires OnPath(sub, path, i)
  {
    && news != [] && rt.blk == news[|news| - 1]
    && Halves(sub, lt, rt, ins, Front(sub, path, i), Back(sub, path, i, xs))
    && Shared(sub, lt, rt, news)
    && (forall c :: c !in news ==> Count(rt, c) == CountAll(Loose(sub, path, i), c))
    && (xs == [] ==> Found(lt, path, i, b))
  }

  /** The blocks hold both halves, h levels above the leaves. */
  ghost predicate CutStored(m0: map<nat, Node>, m: map<nat, Node>, h: nat, cap: nat, path: seq<PathEnt>, i: nat,
                            xs: seq<Entry>, lt: Tree, rt: Tree, news: seq<nat>)
  {
    && news != []
    && Touched(m0, m, path, i, news)
    && Stored(Filled(m, news, xs, cap), lt, h, cap)
    && Stored(Filled(m, news, xs, cap), rt, h, cap)
  }

  lemma {:induction false} LeafHalves(sub: Tree, path: seq<PathEnt>, i: nat, cur: nat, nb: nat, xs: seq<Entry>,
          ins: nat)
    requires sub.Leaf? && Shape(sub) && OnPath(sub, path, i) && cur == path[i].pos && cur < |sub.es| && nb != sub.blk
    requires if cur + 1 < |sub.es| then xs == [] && ins == sub.es[cur + 1].first
             else |xs| == 1 && IsExtent(xs[0]) && ins == xs[0].first
    ensures Halves(sub, Leaf(sub.blk, sub.es[..cur + 1]), Leaf(nb, if xs == [] then sub.es[cur + 1..] else xs), ins,
                   Front(sub, path, i), Back(sub, path, i, xs))
    ensures Shared(sub, Leaf(sub.blk, sub.es[..cur + 1]), Leaf(nb, if xs == [] then sub.es[cur + 1..] else xs), [nb])
  {
    assert xs == [] ==> xs + sub.es[cur + 1..] == sub.es[cur + 1..];
    assert xs != [] ==> xs + sub.es[cur + 1..] == xs;
  }

  /** The leaf cut after its current extent. */
  lemma {:induction false} SplitBase(m0: map<nat, Node>, m: map<nat, Node>, cap: nat, path: seq<PathEnt>, i: nat,
                                     x: Entry, nb: nat, xs: seq<Entry>, ins: nat, sub: Tree, lt: Tree, rt: Tree)
    requires i + 1 == |path| && IsExtent(x)
    requires sub.Leaf? && Shape(sub) && OnPath(sub, path, i)
    requires sub.blk in m0 && sub.blk != 0 && nb != 0 && nb !in m0
    requires var es := sub.es; var cur := path[i].pos;
             && AtPos(es, cur, x.first) && cur >= 0 && |es| == cap > 0
             && m == m0[nb := Node(es[cur + 1..], cap, 0)][sub.blk := Node(es[..cur + 1], cap, 0)]
             && (if cur + 1 < |es| then ins == es[cur + 1].first && xs == [] else ins == x.first && xs == [x])
             && lt == Leaf(sub.blk, sub.es[..cur + 1])
             && rt == Leaf(nb, if xs == [] then sub.es[cur + 1..] else xs)
    ensures CutInv(sub, path, i, xs, x.first, lt, rt, [nb], ins)
    ensures CutStored(m0, m, 0, cap, path, i, xs, lt, rt, [nb])
  {
    LeafHalves(sub, path, i, path[i].pos, nb, xs, ins);
    LeafFound(sub, path, i, xs, x, lt);
    BaseStored(m0, m, cap, path, i, nb, xs, sub, lt, rt);
    hide Halves, Shared, CutStored, Front, Back, OnPath, Found, Shape;
  }

  lemma {:induction false} LeafFound(sub: Tree, path: seq<PathEnt>, i: nat, xs: seq<Entry>, x: Entry, lt: Tree)
    requires i + 1 == |path| && sub.Leaf? && OnPath(sub, path, i) && AtPos(sub.es, path[i].pos, x.first)
    requires 0 <= path[i].pos < |sub.es| && lt == Leaf(sub.blk, sub.es[..path[i].pos + 1])
    ensures Found(lt, path, i, x.first)
  {
  }

  lemma {:induction false} BaseStored(m0: map<nat, Node>, m: map<nat, Node>, cap: nat, path: seq<PathEnt>, i: nat,
                                      nb: nat, xs: seq<Entry>, sub: Tree, lt: Tree, rt: Tree)
    requires i + 1 == |path| && sub.Leaf? && OnPath(sub, path, i)
    requires sub.blk in m0 && sub.blk != 0 && nb != 0 && nb !in m0
    requires var es := sub.es; var cur := path[i].pos;
             && 0 <= cur < |es| == cap && |xs| <= cap
             && m == m0[nb := Node(es[cur + 1..], cap, 0)][sub.blk := Node(es[..cur + 1], cap, 0)]
             && lt == Leaf(sub.blk, sub.es[..cur + 1])
             && rt == Leaf(nb, if xs == [] then sub.es[cur + 1..] else xs)
    ensures CutStored(m0, m, 0, cap, path, i, xs, lt, rt, [nb])
  {
  }

  lemma {:induction false} TouchedStep(m0: map<nat, Node>, m: map<nat, Node>, path: seq<PathEnt>, i: nat,
          news: seq<nat>, m': map<nat, Node>, nb: nat, n1: Node, n2: Node)
    requires Touched(m0, m, path, i + 1, news) && i < |path|
    requires nb !in m && nb != 0 && path[i].blk in m0
    requires m' == m[nb := n1][path[i].blk := n2]
    ensures Touched(m0, m', path, i, news + [nb])
  {
    forall b | b in m0 && (forall j :: i <= j < |path| ==> path[j].blk != b)
      ensures b in m' && m'[b] == m0[b]
    {
      assert path[i].blk != b;
    }
  }

  /** Blocks of the path below level i belong to the child the path goes through. */
  lemma {:induction false} PathBelow(sub: Tree, path: seq<PathEnt>, i: nat, b: nat)
    requires OnPath(sub, path, i) && sub.Inner? && b != sub.blk && Count(sub.kids[path[i].pos], b) == 0
    ensures forall j :: i <= j < |path| ==> path[j].blk != b
  {
    forall j | i <= j < |path|
      ensures path[j].blk != b
    {
      if j > i {
        PathBlock(sub.kids[path[i].pos], path, i + 1, j);
      }
    }
  }

  lemma {:induction false} FilledStep(m0: map<nat, Node>, m: map<nat, Node>, m': map<nat, Node>, path: seq<PathEnt>,
          i: nat, news: seq<nat>, xs: seq<Entry>, cap: nat, nb: nat, blk: nat)
    requires Touched(m0, m, path, i + 1, news) && news != [] && nb !in m && blk in m0 && nb in m' && blk in m'
    requires forall c :: c in m && c != nb && c != blk ==> c in m' && m'[c] == m[c]
    ensures var f, f' := Filled(m, news, xs, cap), Filled(m', news, xs, cap);
            && nb in f' && f'[nb] == m'[nb] && blk in f' && f'[blk] == m'[blk]
            && (forall c :: c in m0 && (forall j :: i + 1 <= j < |path| ==> path[j].blk != c) ==>
                  c in f && f[c] == m0[c])
            && (forall c :: c in f && c != blk && c != nb ==> c in f' && f'[c] == f[c])
  {
    assert news[0] in news;
  }

  lemma {:induction false} LooseMore(sub: Tree, path: seq<PathEnt>, i: nat, lt: Tree, rt: Tree, news: seq<nat>,
          ins: nat, nb: nat)
    requires OnPath(sub, path, i) && sub.Inner? && |sub.es| == |sub.kids|
    requires forall c :: c !in news ==> Count(rt, c) == CountAll(Loose(sub.kids[path[i].pos], path, i + 1), c)
    ensures forall c :: c !in news + [nb] ==>
              Count(RightOf(sub, path[i].pos, rt, nb, ins), c) == CountAll(Loose(sub, path, i), c)
  {
    var p := path[i].pos;
    forall c | c !in news + [nb]
      ensures Count(RightOf(sub, p, rt, nb, ins), c) == CountAll(Loose(sub, path, i), c)
    {
      SplitCount(sub, p, lt, rt, nb, ins, c);
      LooseStep(sub, path, i, c);
    }
  }

  /** One more level cut. */
  lemma {:induction false} CutStep(sub: Tree, path: seq<PathEnt>, i: nat, xs: seq<Entry>, b: nat,
                                   lt: Tree, rt: Tree, news: seq<nat>, ins: nat, nb: nat)
    requires OnPath(sub, path, i) && sub.Inner? && Shape(sub)
    requires CutInv(sub.kids[path[i].pos], path, i + 1, xs, b, lt, rt, news, ins)
    requires nb !in news
    requires forall c :: c in news + [nb] ==> Count(sub, c) == 0
    requires AtPos(sub.es, path[i].pos, b)
    ensures CutInv(sub, path, i, xs, b, LeftOf(sub, path[i].pos, lt), RightOf(sub, path[i].pos, rt, nb, ins),
                news + [nb], ins)
  {
    var p := path[i].pos;
    assert nb in news + [nb] && forall c :: c in news ==> c in news + [nb];
    HalvesStep(sub, p, lt, rt, nb, ins, Front(sub.kids[p], path, i + 1), Back(sub.kids[p], path, i + 1, xs));
    SharedStep(sub, p, lt, rt, nb, ins, news);
    LooseMore(sub, path, i, lt, rt, news, ins, nb);
  }

  /** One more level written. */
  lemma {:induction false} CutStoredStep(m0: map<nat, Node>, m: map<nat, Node>, m': map<nat, Node>, sub: Tree, h: nat,
          cap: nat, path: seq<PathEnt>, i: nat, xs: seq<Entry>, lt: Tree, rt: Tree, news: seq<nat>, ins: nat, nb: nat)
    requires OnPath(sub, path, i) && sub.Inner? && h > 0
    requires CutStored(m0, m, h - 1, cap, path, i + 1, xs, lt, rt, news)
    requires Shared(sub.kids[path[i].pos], lt, rt, news)
    requires Stored(m0, sub, h, cap) && Shape(sub) && Distinct(sub)
    requires |sub.es| == cap && sub.blk != 0
    requires nb !in m && nb != 0
    requires forall c :: c in news + [nb] ==> Count(sub, c) == 0
    requires var p := path[i].pos;
             m' ==
                 m[nb := Node([Index(ins, rt.blk)] + sub.es[p + 1..], cap, h)][sub.blk := Node(sub.es[..p + 1], cap, h)]
    ensures CutStored(m0, m', h, cap, path, i, xs, LeftOf(sub, path[i].pos, lt), RightOf(sub, path[i].pos, rt, nb, ins),
                news + [nb])
  {
    var p := path[i].pos;
    var news' := news + [nb];
    assert news'[0] == news[0] && nb in news' && forall c :: c in news ==> c in news';
    TouchedStep(m0, m, path, i, news, m', nb, m'[nb], m'[sub.blk]);
    FilledStep(m0, m, m', path, i, news, xs, cap, nb, sub.blk);
    SplitStepStored(m0, Filled(m, news, xs, cap), Filled(m', news, xs, cap), sub, h, cap, path, i, lt, rt, news, ins,
            nb);
  }

  lemma {:induction false} SplitStepStored(m0: map<nat, Node>, f: map<nat, Node>, f': map<nat, Node>, sub: Tree, h: nat,
          cap: nat, path: seq<PathEnt>, i: nat, lt: Tree, rt: Tree, news: seq<nat>, ins: nat, nb: nat)
    requires OnPath(sub, path, i) && sub.Inner? && Stored(m0, sub, h, cap) && Shape(sub) && Distinct(sub)
    requires h > 0 && Stored(f, lt, h - 1, cap) && Stored(f, rt, h - 1, cap)
    requires Shared(sub.kids[path[i].pos], lt, rt, news)
    requires forall c :: c in news ==> Count(sub, c) == 0
    requires Count(sub, nb) == 0 && nb !in news && nb != 0 && nb !in m0
    requires |sub.es| == cap && sub.blk != 0
    requires forall c :: c in m0 && (forall j :: i + 1 <= j < |path| ==> path[j].blk != c) ==> c in f && f[c] == m0[c]
    requires forall c :: c in f && c != sub.blk && c != nb ==> c in f' && f'[c] == f[c]
    requires var p := path[i].pos;
             && nb in f' && f'[nb] == Node([Index(ins, rt.blk)] + sub.es[p + 1..], cap, h)
             && sub.blk in f' && f'[sub.blk] == Node(sub.es[..p + 1], cap, h)
    ensures Stored(f', LeftOf(sub, path[i].pos, lt), h, cap)
    ensures Stored(f', RightOf(sub, path[i].pos, rt, nb, ins), h, cap)
  {
    var p := path[i].pos;
    var kid := sub.kids[p];
    assert Count(kid, sub.blk) == 0 && Count(kid, nb) == 0 by {
      SplitCount(sub, p, lt, rt, nb, ins, sub.blk);
      SplitCount(sub, p, lt, rt, nb, ins, nb);
      assert Count(sub, sub.blk) <= 1;
    }
    HalvesFrame(f, f', lt, rt, h - 1, cap, sub.blk, nb);
    forall c | c in m0 && Count(sub, c) > 0 && c != sub.blk && Count(kid, c) == 0
      ensures c in f' && f'[c] == m0[c]
    {
      PathBelow(sub, path, i, c);
    }
    SplitStored(m0, f', sub, h, cap, p, lt, rt, nb, ins);
  }

  lemma {:induction false} HalvesFrame(f: map<nat, Node>, f': map<nat, Node>, lt: Tree, rt: Tree, h: nat, cap: nat,
          a: nat, b: nat)
    requires Stored(f, lt, h, cap) && Stored(f, rt, h, cap)
    requires Count(lt, a) == 0 && Count(rt, a) == 0 && Count(lt, b) == 0 && Count(rt, b) == 0
    requires forall c :: c in f && c != a && c != b ==> c in f' && f'[c] == f[c]
    ensures Stored(f', lt, h, cap) && Stored(f', rt, h, cap)
  {
    StoredFrame(f, f', lt, h, cap);
    StoredFrame(f, f', rt, h, cap);
  }

  /** Replacing a subtree above which keys stay leaves the search path above it as it was. */
  lemma {:induction false} FoundPut(t: Tree, path: seq<PathEnt>, k: nat, i: nat, s: Tree, b: nat)
    requires Found(t, path, k, b) && OnPath(t, path, k) && k <= i < |path|
    requires Found(s, path, i, b)
    ensures Found(Put(t, path, k, i, s, false), path, k, b)
    decreases t
  {
    if i > k {
      FoundPut(t.kids[path[k].pos], path, k + 1, i, s, b);
    }
  }

  /** Path nodes above level i are not touched, nor are blocks outside the subtree at level i. */
  lemma {:induction false} TouchedRewritten(m0: map<nat, Node>, f: map<nat, Node>, t: Tree, path: seq<PathEnt>, i: nat,
          s: Tree)
    requires OnPath(t, path, 0) && i < |path| && Walkable(m0, path)
    requires forall b :: b in m0 && (forall j :: i <= j < |path| ==> path[j].blk != b) ==> b in f && f[b] == m0[b]
    ensures Rewritten(m0, f, t, path, 0, i, s, false)
  {
    var sub := SubAt(t, path, 0, i);
    SubOnPath(t, path, 0, i);
    forall b | b in m0 && Count(t, b) > 0 && Count(sub, b) == 0 && (forall j :: 0 <= j < i ==> path[j].blk != b)
      ensures b in f && f[b] == m0[b]
    {
      forall j | i <= j < |path|
        ensures path[j].blk != b
      {
        PathBlock(sub, path, i, j);
      }
    }
  }

  /** A stored subtree with the same first extent put back into a proper tree. */
  lemma {:induction false} PutHeld(m0: map<nat, Node>, f: map<nat, Node>, t: Tree, cap: nat, path: seq<PathEnt>, i: nat,
          s: Tree)
    requires Held(m0, t, cap) && OnPath(t, path, 0) && i < |path| && Walkable(m0, path) && i <= m0[0].depth
    requires Stored(f, s, m0[0].depth - i, cap) && Shape(s) && s.blk == SubAt(t, path, 0, i).blk
    requires Flat(s) != [] && Flat(SubAt(t, path, 0, i)) != [] && Flat(s)[0] == Flat(SubAt(t, path, 0, i))[0]
    requires IsExtent(Flat(s)[0])
    requires forall b :: b in m0 && (forall j :: i <= j < |path| ==> path[j].blk != b) ==> b in f && f[b] == m0[b]
    requires Sorted(Bef(t, path, 0, i) + Flat(s) + Aft(t, path, 0, i))
    requires forall b :: Count(t, b) - Count(SubAt(t, path, 0, i), b) + Count(s, b) <= if b in f then 1 else 0
    ensures var t' := Put(t, path, 0, i, s, false);
            && Held(f, t', cap)
            && Flat(t') == Bef(t, path, 0, i) + Flat(s) + Aft(t, path, 0, i)
            && (forall b :: Count(t', b) == Count(t, b) - Count(SubAt(t, path, 0, i), b) + Count(s, b))
  {
    hide Flat, Bef, Aft, Count, Sorted, OnPath;
    var h := m0[0].depth;
    var t' := Put(t, path, 0, i, s, false);
    TouchedRewritten(m0, f, t, path, i, s);
    PutStored(m0, f, t, h, cap, path, 0, i, s, false);
    PutShape(t, path, 0, i, s, false);
    PutFlat(t, path, 0, i, s, false);
    forall b
      ensures Count(t', b) == Count(t, b) - Count(SubAt(t, path, 0, i), b) + Count(s, b)
    {
      PutCount(t, path, 0, i, s, false, b);
    }
  }
}
