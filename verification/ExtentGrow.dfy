/** Growing the tree by one level at the root. */
module ExtentGrow {
  import opened ExtentEntries
  import opened ExtentTree
  import opened ExtentPath
  import opened ExtentSearch
  import opened ExtentHeld

  /** The root's content moved to block nb, under a root with a single index. */
  ghost function Moved(t: Tree, nb: nat): Tree {
    t.(blk := nb)
  }

  ghost function Grown(t: Tree, nb: nat): Tree
    requires t.es != []
  {
    Inner(0, [Index(t.es[0].first, nb)], [Moved(t, nb)])
  }

  lemma {:induction false} GrownFlat(t: Tree, nb: nat)
    requires t.es != []
    ensures Flat(Grown(t, nb)) == Flat(t)
  {
    var k := Moved(t, nb);
    assert FlatAll([k]) == Flat(k) + FlatAll([]) == Flat(k);
  }

  lemma {:induction false} GrownCount(t: Tree, nb: nat, b: nat)
    requires t.es != [] && t.blk == 0
    ensures Count(Grown(t, nb), b) == Count(t, b) + if b == nb then 1 else 0
  {
    var k := Moved(t, nb);
    assert CountAll([k], b) == Count(k, b) + CountAll([], b);
  }

  lemma {:induction false} GrownShape(t: Tree, nb: nat)
    requires Shape(t) && t.es != []
    ensures Shape(Grown(t, nb))
  {
    var k := Moved(t, nb);
    var g := Grown(t, nb);
    if t.Inner? {
      assert Shape(t.kids[0]) && Flat(t.kids[0]) != [];
      assert Flat(k) == FlatAll(t.kids) == Flat(t.kids[0]) + FlatAll(t.kids[1..]);
      assert Flat(k)[0] == Flat(t.kids[0])[0];
      assert KeyOk(0, t.es[0].first, Flat(t.kids[0])[0]);
    }
    assert Shape(g.kids[0]) && Flat(k) != [] && KeyOk(0, g.es[0].first, Flat(k)[0]);
  }

  lemma {:induction false} GrownHeld(m: map<nat, Node>, m': map<nat, Node>, t: Tree, cap: nat, nb: nat)
    requires Held(m, t, cap) && t.es != [] && nb != 0 && nb !in m
    requires m' == m[nb := Node(m[0].entries, cap, m[0].depth)]
                    [0 := Node([Index(m[0].entries[0].first, nb)], ROOT_MAX, m[0].depth + 1)]
    ensures Held(m', Grown(t, nb), cap)
    ensures NoLeak(m, t) ==> NoLeak(m', Grown(t, nb))
  {
    var h := m[0].depth;
    var g, k := Grown(t, nb), Moved(t, nb);
    GrownFlat(t, nb);
    GrownShape(t, nb);
    forall b
      ensures Count(g, b) == Count(t, b) + if b == nb then 1 else 0
    {
      GrownCount(t, nb, b);
    }
    if t.Inner? {
      forall i | 0 <= i < |t.kids|
        ensures Stored(m', t.kids[i], h - 1, cap)
      {
        forall b | Count(t.kids[i], b) > 0 && b in m
          ensures b in m' && m'[b] == m[b]
        {
          CountAllAt(t.kids, i, b);
          assert Count(t, b) <= 1;
        }
        StoredFrame(m, m', t.kids[i], h - 1, cap);
      }
    }
    assert Stored(m', k, h, cap);
  }

  /** A search path moved n places to the right. */
  lemma {:induction false} FoundShift(t: Tree, path: seq<PathEnt>, k: nat, b: nat, pre: seq<PathEnt>)
    requires Found(t, path, k, b)
    ensures Found(t, pre + path, |pre| + k, b)
    decreases t
  {
    assert (pre + path)[|pre| + k] == path[k];
    if t.Inner? {
      FoundShift(t.kids[path[k].pos], path, k + 1, b, pre);
    }
  }

  /** The search path in the grown tree: one step more, then the old one. */
  ghost function GrownPath(path: seq<PathEnt>, nb: nat): seq<PathEnt>
    requires path != []
  {
    [PathEnt(0, 0), PathEnt(nb, path[0].pos)] + path[1..]
  }

  lemma {:induction false} FoundGrown(t: Tree, path: seq<PathEnt>, b: nat, nb: nat)
    requires Found(t, path, 0, b) && t.es != []
    ensures Found(Grown(t, nb), GrownPath(path, nb), 0, b)
  {
    var p2 := GrownPath(path, nb);
    assert p2[1] == PathEnt(nb, path[0].pos);
    var k := Moved(t, nb);
    assert Found(k, p2, 1, b) by {
      if t.Inner? {
        FoundTail(t.kids[path[0].pos], path, b, nb);
      }
    }
    assert p2[0] == PathEnt(0, 0);
  }

  lemma {:induction false} FoundTail(t: Tree, path: seq<PathEnt>, b: nat, nb: nat)
    requires |path| > 1 && Found(t, path, 1, b)
    ensures Found(t, GrownPath(path, nb), 2, b)
  {
    FoundShift(t, path, 1, b, [PathEnt(0, 0)]);
    var q := [PathEnt(0, 0)] + path;
    FoundSame(t, q, GrownPath(path, nb), 2, b);
  }

  lemma {:induction false} FoundSame(t: Tree, p: seq<PathEnt>, q: seq<PathEnt>, k: nat, b: nat)
    requires Found(t, p, k, b) && |p| == |q| && forall j :: k <= j < |p| ==> p[j] == q[j]
    ensures Found(t, q, k, b)
    decreases t
  {
    if t.Inner? {
      FoundSame(t.kids[p[k].pos], p, q, k + 1, b);
    }
  }

  /** Two searches for the same block take the same path. */
  lemma {:induction false} FoundUnique(t: Tree, p: seq<PathEnt>, q: seq<PathEnt>, k: nat, b: nat)
    requires Shape(t) && Sorted(Flat(t)) && Found(t, p, k, b) && Found(t, q, k, b)
    ensures |p| == |q| && forall j :: k <= j < |p| ==> p[j] == q[j]
    decreases t
  {
    KeysSorted(t);
    assert p[k] == q[k];
    if t.Inner? {
      SortedKid(t, p[k].pos);
      FoundUnique(t.kids[p[k].pos], p, q, k + 1, b);
    }
  }
}
