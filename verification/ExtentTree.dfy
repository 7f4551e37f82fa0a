/** The extent tree of one inode as a value: its shape, its extents in order, and its placement
    in the numbered metadata blocks. Block 0 stands for the root held in the inode. */
module ExtentTree {
  import opened ExtentEntries

  /** Entries the root in the inode can hold: (60 - 12) / 12. */
  const ROOT_MAX: nat := 4

  /** One on-disk node: header fields and the valid entries. */
  datatype Node = Node(entries: seq<Entry>, max: nat, depth: nat)

  /** A node together with everything below it. */
  datatype Tree =
    | Leaf(blk: nat, es: seq<Entry>)
    | Inner(blk: nat, es: seq<Entry>, kids: seq<Tree>)

  /** One step of the path from the root; pos is -1 where the source holds a NULL pointer. */
  datatype PathEnt = PathEnt(blk: nat, pos: int)

  /** All extents below a node, left to right. */
  ghost function Flat(t: Tree): seq<Entry>
    decreases t, 1
  {
    match t
    case Leaf(_, es) => es
    case Inner(_, _, kids) => FlatAll(kids)
  }

  ghost function FlatAll(ks: seq<Tree>): seq<Entry>
    decreases ks, 0
  {
    if ks == [] then [] else Flat(ks[0]) + FlatAll(ks[1..])
  }

  /** How often metadata block b occurs in a subtree. */
  ghost function Count(t: Tree, b: nat): nat
    decreases t, 1
  {
    (if t.blk == b then 1 else 0) + (if t.Leaf? then 0 else CountAll(t.kids, b))
  }

  ghost function CountAll(ks: seq<Tree>, b: nat): nat
    decreases ks, 0
  {
    if ks == [] then 0 else Count(ks[0], b) + CountAll(ks[1..], b)
  }

  /** An index key is the first block below it, except that the first key of a node,
      which no search reads, only has to stay before the end of the first extent. */
  ghost predicate KeyOk(i: nat, key: nat, fst: Entry) {
    fst.Extent? && if i == 0 then key < End(fst) else key == fst.first
  }

  /** Every node below t is non-empty and every index matches its child. */
  ghost predicate Shape(t: Tree) {
    match t
    case Leaf(_, es) => Extents(es)
    case Inner(_, es, kids) =>
      && |es| == |kids| > 0
      && forall i :: 0 <= i < |kids| ==>
           && es[i].Index? && es[i].leaf == kids[i].blk
           && Shape(kids[i])
           && Flat(kids[i]) != []
           && KeyOk(i, es[i].first, Flat(kids[i])[0])
  }

  function MaxOf(blk: nat, cap: nat): nat {
    if blk == 0 then ROOT_MAX else cap
  }

  /** The blocks hold the tree, and all leaves are h levels down. */
  ghost predicate Stored(m: map<nat, Node>, t: Tree, h: nat, cap: nat)
    decreases t
  {
    && t.blk in m
    && m[t.blk] == Node(t.es, MaxOf(t.blk, cap), h)
    && |t.es| <= MaxOf(t.blk, cap)
    && (t.Leaf? <==> h == 0)
    && (t.Inner? ==> forall i :: 0 <= i < |t.kids| ==> Stored(m, t.kids[i], h - 1, cap))
  }

  // ---- order and footprint ----

  lemma {:induction false} FlatAllConcat(a: seq<Tree>, b: seq<Tree>)
    ensures FlatAll(a + b) == FlatAll(a) + FlatAll(b)
  {
    if a == [] {
      assert a + b == b;
    } else {
      FlatAllConcat(a[1..], b);
      assert (a + b)[1..] == a[1..] + b;
      SeqAssoc(Flat(a[0]), FlatAll(a[1..]), FlatAll(b));
    }
  }

  lemma {:induction false} CountAllConcat(a: seq<Tree>, c: seq<Tree>, b: nat)
    ensures CountAll(a + c, b) == CountAll(a, b) + CountAll(c, b)
  {
    if a == [] {
      assert a + c == c;
    } else {
      CountAllConcat(a[1..], c, b);
      assert (a + c)[1..] == a[1..] + c;
    }
  }

  /** One child's extents, cut out of all the children's. */
  lemma {:induction false} FlatAllAt(ks: seq<Tree>, p: nat)
    requires p < |ks|
    ensures FlatAll(ks) == FlatAll(ks[..p]) + (Flat(ks[p]) + FlatAll(ks[p + 1..]))
  {
    assert ks == ks[..p] + ks[p..];
    FlatAllConcat(ks[..p], ks[p..]);
    assert ks[p..][1..] == ks[p + 1..];
  }

  /** The blocks of one child, cut out of all the children's. */
  lemma {:induction false} CountAllAt(ks: seq<Tree>, p: nat, b: nat)
    requires p < |ks|
    ensures CountAll(ks, b) == CountAll(ks[..p], b) + Count(ks[p], b) + CountAll(ks[p + 1..], b)
  {
    assert ks == ks[..p] + ks[p..];
    CountAllConcat(ks[..p], ks[p..], b);
    assert ks[p..][1..] == ks[p + 1..];
  }

  /** Storage depends only on the tree's own blocks. */
  lemma {:induction false} StoredFrame(m: map<nat, Node>, m': map<nat, Node>, t: Tree, h: nat, cap: nat)
    requires Stored(m, t, h, cap)
    requires forall b :: Count(t, b) > 0 && b in m ==> b in m' && m'[b] == m[b]
    ensures Stored(m', t, h, cap)
    decreases t
  {
    assert Count(t, t.blk) > 0;
    if t.Inner? {
      forall i | 0 <= i < |t.kids|
        ensures Stored(m', t.kids[i], h - 1, cap)
      {
        forall b | Count(t.kids[i], b) > 0 && b in m
          ensures b in m' && m'[b] == m[b]
        {
          CountAllAt(t.kids, i, b);
          assert Count(t, b) > 0;
        }
        StoredFrame(m, m', t.kids[i], h - 1, cap);
      }
    }
  }
}
