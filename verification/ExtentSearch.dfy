/** Searching the extent tree: sortedness of one node's keys, and descending one level. */
module ExtentSearch {
  import opened ExtentEntries
  import opened ExtentTree
  import opened ExtentPath

  lemma {:induction false} SortedParts(a: seq<Entry>, b: seq<Entry>)
    requires Sorted(a + b)
    ensures Sorted(a) && Sorted(b)
    ensures a != [] && b != [] ==> a[0].first < b[0].first
  {
    var f := a + b;
    assert forall i :: 0 <= i < |a| ==> f[i] == a[i];
    assert forall i :: 0 <= i < |b| ==> f[|a| + i] == b[i];
  }

  lemma {:induction false} SortedKid(t: Tree, p: nat)
    requires t.Inner? && p < |t.kids| && Sorted(Flat(t))
    ensures Sorted(Flat(t.kids[p]))
  {
    FlatAllAt(t.kids, p);
    SortedParts(FlatAll(t.kids[..p]), Flat(t.kids[p]) + FlatAll(t.kids[p + 1..]));
    SortedParts(Flat(t.kids[p]), FlatAll(t.kids[p + 1..]));
  }

  /** Keys after the first one increase, in index nodes and in leaves. */
  predicate KeysUp(es: seq<Entry>) {
    forall i, j :: 1 <= i < j < |es| ==> es[i].first < es[j].first
  }

  lemma {:induction false} KeysSorted(t: Tree)
    requires Shape(t) && Sorted(Flat(t))
    ensures KeysUp(t.es)
  {
    if t.Inner? {
      forall i, j | 1 <= i < j < |t.es|
        ensures t.es[i].first < t.es[j].first
      {
        KeysPair(t, i, j);
      }
    } else {
      assert forall i, j :: 0 <= i < j < |t.es| ==> End(t.es[i]) <= t.es[j].first;
    }
  }

  lemma {:induction false} InOrder(a: seq<Entry>, b: seq<Entry>, c: seq<Entry>)
    requires Sorted((a + b) + c) && b != [] && c != []
    ensures b[0].first < c[0].first
  {
    var f := (a + b) + c;
    assert f[|a|] == b[0] && f[|a| + |b|] == c[0];
  }

  lemma {:induction false} KeyFacts(t: Tree, i: nat)
    requires t.Inner? && Shape(t) && 0 < i < |t.kids|
    ensures |t.es| == |t.kids| && Flat(t) == FlatAll(t.kids)
    ensures Flat(t.kids[i]) != [] && t.es[i].first == Flat(t.kids[i])[0].first
  {
  }

  lemma {:induction false} KeysPair(t: Tree, i: nat, j: nat)
    requires t.Inner? && Shape(t) && Sorted(Flat(t)) && 0 < i < j < |t.kids|
    ensures |t.es| == |t.kids| && t.es[i].first < t.es[j].first
  {
    hide *;
    KeyFacts(t, i);
    KeyFacts(t, j);
    var up, rest := t.kids[..j], t.kids[j..];
    assert t.kids == up + rest && up[i] == t.kids[i] && rest[0] == t.kids[j];
    FlatAllConcat(up, rest);
    FlatAllAt(up, i);
    HeadOfAll(rest);
    InOrder(FlatAll(up[..i]), Flat(up[i]) + FlatAll(up[i + 1..]), FlatAll(rest));
  }

  lemma {:induction false} HeadOfAll(kids: seq<Tree>)
    requires kids != [] && Flat(kids[0]) != []
    ensures FlatAll(kids) != [] && FlatAll(kids)[0] == Flat(kids[0])[0]
  {
  }

  /** path[k..] leads by searching for b from t down to cur, which is not yet on the path. */
  ghost predicate Descent(t: Tree, path: seq<PathEnt>, k: nat, b: nat, cur: Tree)
    decreases t
  {
    if k >= |path| then t == cur else
      && t.Inner?
      && path[k].blk == t.blk
      && AtPos(t.es, path[k].pos, b)
      && 0 <= path[k].pos < |t.kids|
      && Descent(t.kids[path[k].pos], path, k + 1, b, cur)
  }

  lemma {:induction false} DescentStep(t: Tree, path: seq<PathEnt>, k: nat, b: nat, cur: Tree, e: PathEnt)
    requires k <= |path| && Descent(t, path, k, b, cur)
    requires cur.Inner? && e.blk == cur.blk && AtPos(cur.es, e.pos, b) && 0 <= e.pos < |cur.kids|
    ensures Descent(t, path + [e], k, b, cur.kids[e.pos])
    decreases t
  {
    if k < |path| {
      DescentStep(t.kids[path[k].pos], path, k + 1, b, cur, e);
    } else {
      assert (path + [e])[k] == e;
    }
  }

  lemma {:induction false} DescentDone(t: Tree, path: seq<PathEnt>, k: nat, b: nat, cur: Tree, e: PathEnt)
    requires k <= |path| && Descent(t, path, k, b, cur)
    requires cur.Leaf? && e.blk == cur.blk && AtPos(cur.es, e.pos, b)
    ensures Found(t, path + [e], k, b)
    decreases t
  {
    if k < |path| {
      DescentDone(t.kids[path[k].pos], path, k + 1, b, cur, e);
    } else {
      assert (path + [e])[k] == e;
    }
  }
}
