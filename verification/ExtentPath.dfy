/** Paths through the extent tree, and replacing the leaf a path ends in. */
module ExtentPath {
  import opened ExtentEntries
  import opened ExtentTree

  /** path[k..] leads from t down to a leaf. */
  ghost predicate OnPath(t: Tree, path: seq<PathEnt>, k: nat)
    decreases t
  {
    && k < |path|
    && path[k].blk == t.blk
    && (t.Leaf? ==> k + 1 == |path|)
    && (t.Inner? ==>
          && k + 1 < |path|
          && 0 <= path[k].pos < |t.kids|
          && OnPath(t.kids[path[k].pos], path, k + 1))
  }

  /** Where the binary search over the entries of one node stops. */
  predicate AtPos(es: seq<Entry>, pos: int, b: nat) {
    if es == [] then
      pos == -1
    else
      && 0 <= pos < |es|
      && (pos == 0 || es[pos].first <= b)
      && (pos + 1 < |es| ==> b < es[pos + 1].first)
  }

  /** path[k..] is the search path for block b below t. */
  ghost predicate Found(t: Tree, path: seq<PathEnt>, k: nat, b: nat)
    decreases t
  {
    && k < |path|
    && path[k].blk == t.blk
    && AtPos(t.es, path[k].pos, b)
    && (t.Leaf? ==> k + 1 == |path|)
    && (t.Inner? ==>
          && k + 1 < |path|
          && 0 <= path[k].pos < |t.kids|
          && Found(t.kids[path[k].pos], path, k + 1, b))
  }

  lemma {:induction false} FoundOnPath(t: Tree, path: seq<PathEnt>, k: nat, b: nat)
    requires Found(t, path, k, b)
    ensures OnPath(t, path, k)
    decreases t
  {
    if t.Inner? {
      FoundOnPath(t.kids[path[k].pos], path, k + 1, b);
    }
  }

  /** The subtree at level i of the path, and the extents on either side of it. */
  ghost function SubAt(t: Tree, path: seq<PathEnt>, k: nat, i: nat): Tree
    requires OnPath(t, path, k) && k <= i < |path|
    decreases t
  {
    if i == k then t else SubAt(t.kids[path[k].pos], path, k + 1, i)
  }

  ghost function Bef(t: Tree, path: seq<PathEnt>, k: nat, i: nat): seq<Entry>
    requires OnPath(t, path, k) && k <= i < |path|
    decreases t
  {
    if i == k then [] else
      var p := path[k].pos;
      FlatAll(t.kids[..p]) + Bef(t.kids[p], path, k + 1, i)
  }

  ghost function Aft(t: Tree, path: seq<PathEnt>, k: nat, i: nat): seq<Entry>
    requires OnPath(t, path, k) && k <= i < |path|
    decreases t
  {
    if i == k then [] else
      var p := path[k].pos;
      Aft(t.kids[p], path, k + 1, i) + FlatAll(t.kids[p + 1..])
  }

  lemma {:induction false} SubOnPath(t: Tree, path: seq<PathEnt>, k: nat, i: nat)
    requires OnPath(t, path, k) && k <= i < |path|
    ensures OnPath(SubAt(t, path, k, i), path, i)
    ensures SubAt(t, path, k, i).Leaf? <==> i + 1 == |path|
    ensures Shape(t) ==> Shape(SubAt(t, path, k, i))
    decreases t
  {
    if i > k {
      SubOnPath(t.kids[path[k].pos], path, k + 1, i);
    }
  }

  lemma {:induction false} Glue(a: seq<Entry>, b: seq<Entry>, c: seq<Entry>, d: seq<Entry>, e: seq<Entry>)
    ensures a + ((b + c + d) + e) == (a + b) + c + (d + e)
  {
  }

  lemma {:induction false} Bare(a: seq<Entry>)
    ensures a == [] + a + []
  {
  }

  lemma {:induction false} FlatPath(t: Tree, path: seq<PathEnt>, k: nat, i: nat)
    requires OnPath(t, path, k) && k <= i < |path|
    ensures Flat(t) == Bef(t, path, k, i) + Flat(SubAt(t, path, k, i)) + Aft(t, path, k, i)
    decreases t
  {
    if i > k {
      var p := path[k].pos;
      var kid := t.kids[p];
      FlatPath(kid, path, k + 1, i);
      FlatAllAt(t.kids, p);
      Glue(FlatAll(t.kids[..p]), Bef(kid, path, k + 1, i), Flat(SubAt(kid, path, k + 1, i)),
           Aft(kid, path, k + 1, i), FlatAll(t.kids[p + 1..]));
    } else {
      Bare(Flat(t));
    }
  }

  /** Every position from level k to just above level i is the first one. */
  ghost predicate AllZero(path: seq<PathEnt>, k: nat, i: nat) {
    forall j :: k <= j < i && j < |path| ==> path[j].pos == 0
  }

  /** A non-empty run of children starts with the first extent of its first child. */
  lemma {:induction false} FlatAllFirst(t: Tree, p: nat, q: nat)
    requires Shape(t) && t.Inner? && p < q <= |t.kids|
    ensures FlatAll(t.kids[p..q]) != [] && FlatAll(t.kids[p..q])[0] == Flat(t.kids[p])[0]
  {
    assert t.kids[p..q][0] == t.kids[p];
  }

  lemma {:induction false} BefEmpty(t: Tree, path: seq<PathEnt>, k: nat, i: nat)
    requires Shape(t) && OnPath(t, path, k) && k <= i < |path|
    ensures Bef(t, path, k, i) == [] <==> AllZero(path, k, i)
    decreases t
  {
    if i > k {
      var p := path[k].pos;
      BefEmpty(t.kids[p], path, k + 1, i);
      if p > 0 {
        FlatAllFirst(t, 0, p);
      }
      assert AllZero(path, k, i) <==> p == 0 && AllZero(path, k + 1, i);
    }
  }

  /** The search has compared b with the first extent right of the leaf. */
  lemma {:induction false} SearchAfter(t: Tree, path: seq<PathEnt>, k: nat, b: nat)
    requires Shape(t) && Found(t, path, k, b) && OnPath(t, path, k)
    ensures var aft := Aft(t, path, k, |path| - 1); aft != [] ==> b < aft[0].first
    decreases t
  {
    if t.Inner? {
      var p := path[k].pos;
      FoundOnPath(t.kids[p], path, k + 1, b);
      SearchAfter(t.kids[p], path, k + 1, b);
      if p + 1 < |t.kids| {
        FlatAllFirst(t, p + 1, |t.kids|);
        assert t.kids[p + 1..|t.kids|] == t.kids[p + 1..];
      }
    }
  }

  /** The search has compared b with the first extent of the leaf, unless nothing is left of it. */
  lemma {:induction false} SearchBefore(t: Tree, path: seq<PathEnt>, k: nat, b: nat)
    requires Shape(t) && Found(t, path, k, b) && OnPath(t, path, k)
    ensures var leaf := SubAt(t, path, k, |path| - 1);
            && leaf.Leaf?
            && (Bef(t, path, k, |path| - 1) != [] ==> leaf.es != [] && leaf.es[0].first <= b)
            && (Flat(t) != [] ==> leaf.es != [])
    decreases t
  {
    if t.Inner? {
      var p := path[k].pos;
      var kid := t.kids[p];
      FoundOnPath(kid, path, k + 1, b);
      SearchBefore(kid, path, k + 1, b);
      FlatPath(kid, path, k + 1, |path| - 1);
    }
  }

  function SetKey(es: seq<Entry>, p: nat, key: nat): seq<Entry>
    requires p < |es|
  {
    es[p := es[p].(first := key)]
  }

  /** The tree with s in place of the subtree at level i of the path. With fix, the keys that
      lead straight down to the first extent of s become its first block. */
  ghost function Put(t: Tree, path: seq<PathEnt>, k: nat, i: nat, s: Tree, fix: bool): Tree
    requires OnPath(t, path, k) && k <= i < |path|
    requires fix ==> Flat(s) != []
    decreases t
  {
    if i == k then s else
      var p := path[k].pos;
      Inner(t.blk,
            if fix && AllZero(path, k + 1, i) && p < |t.es| then SetKey(t.es, p, Flat(s)[0].first) else t.es,
            t.kids[p := Put(t.kids[p], path, k + 1, i, s, fix)])
  }

  lemma {:induction false} PutFlat(t: Tree, path: seq<PathEnt>, k: nat, i: nat, s: Tree, fix: bool)
    requires OnPath(t, path, k) && k <= i < |path|
    requires fix ==> Flat(s) != []
    ensures Flat(Put(t, path, k, i, s, fix)) == Bef(t, path, k, i) + Flat(s) + Aft(t, path, k, i)
    decreases t
  {
    if i > k {
      var p := path[k].pos;
      var kid := t.kids[p];
      var kid' := Put(kid, path, k + 1, i, s, fix);
      PutFlat(kid, path, k + 1, i, s, fix);
      var kids' := t.kids[p := kid'];
      FlatAllAt(kids', p);
      assert kids'[..p] == t.kids[..p] && kids'[p + 1..] == t.kids[p + 1..];
      Glue(FlatAll(t.kids[..p]), Bef(kid, path, k + 1, i), Flat(s), Aft(kid, path, k + 1, i), FlatAll(t.kids[p + 1..]));
    } else {
      Bare(Flat(s));
    }
  }

  lemma {:induction false} PutCount(t: Tree, path: seq<PathEnt>, k: nat, i: nat, s: Tree, fix: bool, b: nat)
    requires OnPath(t, path, k) && k <= i < |path|
    requires fix ==> Flat(s) != []
    ensures Count(Put(t, path, k, i, s, fix), b) == Count(t, b) - Count(SubAt(t, path, k, i), b) + Count(s, b)
    decreases t
  {
    if i > k {
      var p := path[k].pos;
      var kids' := t.kids[p := Put(t.kids[p], path, k + 1, i, s, fix)];
      PutCount(t.kids[p], path, k + 1, i, s, fix, b);
      CountAllAt(t.kids, p, b);
      CountAllAt(kids', p, b);
      assert kids'[..p] == t.kids[..p] && kids'[p + 1..] == t.kids[p + 1..];
    }
  }

  /** When s may stand where old_ stood: the keys above stay right. */
  ghost predicate Fits(old_: Tree, s: Tree, leftmost: bool, fix: bool) {
    && Shape(s) && s.blk == old_.blk
    && Flat(s) != [] && IsExtent(Flat(s)[0])
    && (Flat(old_) == [] || Flat(old_)[0].Extent?)
    && (|| (Flat(old_) != [] && Flat(s)[0].first == Flat(old_)[0].first && End(Flat(s)[0]) >= End(Flat(old_)[0]))
        || (leftmost && fix)
        || (leftmost && Flat(old_) != [] && End(Flat(s)[0]) >= End(Flat(old_)[0])))
  }

  /** One child and its key replaced. */
  lemma {:induction false} KidPutShape(t: Tree, p: nat, key: nat, kid: Tree)
    requires Shape(t) && t.Inner? && p < |t.kids|
    requires Shape(kid) && kid.blk == t.kids[p].blk && Flat(kid) != []
    requires KeyOk(p, key, Flat(kid)[0])
    ensures Shape(Inner(t.blk, SetKey(t.es, p, key), t.kids[p := kid]))
  {
  }

  /** The first extent below a child after a replacement further down, and the key over it. */
  lemma {:induction false} PutKey(kid: Tree, path: seq<PathEnt>, k: nat, i: nat, s: Tree, fix: bool, p: nat, key: nat)
    requires Shape(kid) && OnPath(kid, path, k) && k <= i < |path| && Flat(kid) != []
    requires KeyOk(p, key, Flat(kid)[0])
    requires Fits(SubAt(kid, path, k, i), s, AllZero(path, k, i) && p == 0, fix)
    ensures var kid' := Put(kid, path, k, i, s, fix);
            Flat(kid') != [] &&
            KeyOk(p, if fix && AllZero(path, k, i) then Flat(s)[0].first else key, Flat(kid')[0])
  {
    PutFlat(kid, path, k, i, s, fix);
    FlatPath(kid, path, k, i);
    BefEmpty(kid, path, k, i);
    var bef, old_ := Bef(kid, path, k, i), SubAt(kid, path, k, i);
    if bef != [] {
      assert Flat(Put(kid, path, k, i, s, fix))[0] == bef[0] == Flat(kid)[0];
    } else {
      assert Flat(Put(kid, path, k, i, s, fix))[0] == Flat(s)[0];
      if Flat(old_) != [] {
        assert Flat(kid)[0] == Flat(old_)[0];
      }
    }
  }

  lemma {:induction false} PutShape(t: Tree, path: seq<PathEnt>, k: nat, i: nat, s: Tree, fix: bool)
    requires Shape(t) && OnPath(t, path, k) && k <= i < |path|
    requires Fits(SubAt(t, path, k, i), s, AllZero(path, k, i), fix)
    ensures Shape(Put(t, path, k, i, s, fix))
    ensures Put(t, path, k, i, s, fix).blk == t.blk
    decreases t
  {
    if i > k {
      var p := path[k].pos;
      var kid := t.kids[p];
      assert AllZero(path, k, i) <==> p == 0 && AllZero(path, k + 1, i);
      PutShape(kid, path, k + 1, i, s, fix);
      PutKey(kid, path, k + 1, i, s, fix, p, t.es[p].first);
      var key := if fix && AllZero(path, k + 1, i) then Flat(s)[0].first else t.es[p].first;
      KidPutShape(t, p, key, Put(kid, path, k + 1, i, s, fix));
      assert SetKey(t.es, p, t.es[p].first) == t.es;
    }
  }

  /** Every block on the path is one of the tree's. */
  lemma {:induction false} PathBlock(t: Tree, path: seq<PathEnt>, k: nat, j: nat)
    requires OnPath(t, path, k) && k <= j < |path|
    ensures Count(t, path[j].blk) > 0
    decreases t
  {
    if j > k {
      PathBlock(t.kids[path[k].pos], path, k + 1, j);
      CountAllAt(t.kids, path[k].pos, path[j].blk);
    }
  }

  lemma {:induction false} SubBlock(t: Tree, path: seq<PathEnt>, k: nat, i: nat, b: nat)
    requires OnPath(t, path, k) && k <= i < |path|
    ensures Count(SubAt(t, path, k, i), b) <= Count(t, b)
    decreases t
  {
    if i > k {
      SubBlock(t.kids[path[k].pos], path, k + 1, i, b);
      CountAllAt(t.kids, path[k].pos, b);
    }
  }

  /** No block belongs to two nodes. */
  ghost predicate Distinct(t: Tree) {
    forall b :: Count(t, b) <= 1
  }

  /** m' is m with the subtree at level i rewritten and the keys over it set as Put does. */
  ghost predicate Rewritten(m: map<nat, Node>, m': map<nat, Node>, t: Tree, path: seq<PathEnt>,
                            k: nat, i: nat, s: Tree, fix: bool)
    requires OnPath(t, path, k) && k <= i < |path|
    requires fix ==> Flat(s) != []
  {
    && (forall j :: k <= j < i ==>
          && path[j].blk in m && path[j].blk in m' && 0 <= path[j].pos < |m[path[j].blk].entries|
          && m'[path[j].blk] ==
             if fix && AllZero(path, j + 1, i)
             then m[path[j].blk].(entries := SetKey(m[path[j].blk].entries, path[j].pos, Flat(s)[0].first))
             else m[path[j].blk])
    && (forall b :: (b in m && Count(t, b) > 0 && Count(SubAt(t, path, k, i), b) == 0
                     && forall j :: k <= j < i ==> path[j].blk != b) ==> b in m' && m'[b] == m[b])
  }

  lemma {:induction false} KidDistinct(t: Tree, p: nat)
    requires Distinct(t) && t.Inner? && p < |t.kids|
    ensures Distinct(t.kids[p])
  {
    forall b
      ensures Count(t.kids[p], b) <= Count(t, b)
    {
      CountAllAt(t.kids, p, b);
    }
  }

  lemma {:induction false} PutStored(m: map<nat, Node>, m': map<nat, Node>, t: Tree, h: nat, cap: nat,
                                     path: seq<PathEnt>, k: nat, i: nat, s: Tree, fix: bool)
    requires Stored(m, t, h, cap) && Shape(t) && Distinct(t)
    requires OnPath(t, path, k) && k <= i < |path|
    requires fix ==> Flat(s) != []
    requires i - k <= h && Stored(m', s, h - (i - k), cap)
    requires Rewritten(m, m', t, path, k, i, s, fix)
    ensures Stored(m', Put(t, path, k, i, s, fix), h, cap)
    decreases t
  {
    if i > k {
      var p := path[k].pos;
      var kid := t.kids[p];
      KidDistinct(t, p);
      RewrittenKid(m, m', t, path, k, i, s, fix);
      PutStored(m, m', kid, h - 1, cap, path, k + 1, i, s, fix);
      forall q | 0 <= q < |t.kids| && q != p
        ensures Stored(m', t.kids[q], h - 1, cap)
      {
        OtherKid(m, m', t, path, k, i, s, fix, q);
        StoredFrame(m, m', t.kids[q], h - 1, cap);
      }
    }
  }

  lemma {:induction false} RewrittenKid(m: map<nat, Node>, m': map<nat, Node>, t: Tree, path: seq<PathEnt>,
                     k: nat, i: nat, s: Tree, fix: bool)
    requires OnPath(t, path, k) && k < i < |path| && Distinct(t)
    requires fix ==> Flat(s) != []
    requires Rewritten(m, m', t, path, k, i, s, fix)
    ensures Rewritten(m, m', t.kids[path[k].pos], path, k + 1, i, s, fix)
  {
    var p := path[k].pos;
    var kid := t.kids[p];
    forall b | b in m && Count(kid, b) > 0 && Count(SubAt(kid, path, k + 1, i), b) == 0
               && (forall j :: k + 1 <= j < i ==> path[j].blk != b)
      ensures b in m' && m'[b] == m[b]
    {
      CountAllAt(t.kids, p, b);
      assert Count(t, b) <= 1;
      assert path[k].blk != b;
    }
  }

  lemma {:induction false} OtherKid(m: map<nat, Node>, m': map<nat, Node>, t: Tree, path: seq<PathEnt>,
                 k: nat, i: nat, s: Tree, fix: bool, q: nat)
    requires OnPath(t, path, k) && k < i < |path| && Distinct(t)
    requires fix ==> Flat(s) != []
    requires Rewritten(m, m', t, path, k, i, s, fix)
    requires q < |t.kids| && q != path[k].pos
    ensures forall b :: Count(t.kids[q], b) > 0 && b in m ==> b in m' && m'[b] == m[b]
  {
    var p := path[k].pos;
    var kid := t.kids[p];
    forall b | Count(t.kids[q], b) > 0 && b in m
      ensures b in m' && m'[b] == m[b]
    {
      TwoKids(t, p, q, b);
      assert Count(t, b) <= 1;
      SubBlock(kid, path, k + 1, i, b);
      forall j | k <= j < i
        ensures path[j].blk != b
      {
        if j > k {
          PathBlock(kid, path, k + 1, j);
        }
      }
    }
  }

  /** Two different children together have no more blocks than the parent. */
  lemma {:induction false} TwoKids(t: Tree, p: nat, q: nat, b: nat)
    requires t.Inner? && p < |t.kids| && q < |t.kids| && p != q
    ensures (if t.blk == b then 1 else 0) + Count(t.kids[p], b) + Count(t.kids[q], b) <= Count(t, b)
  {
    var lo, hi := if p < q then p else q, if p < q then q else p;
    CountAllAt(t.kids, hi, b);
    CountAllAt(t.kids[..hi], lo, b);
    assert t.kids[..hi][lo] == t.kids[lo];
  }
}
