/** The tree an inode's blocks hold, and what rewriting one leaf does to it. */
module ExtentHeld {
  import opened ExtentEntries
  import opened ExtentTree
  import opened ExtentPath
  import opened ExtentLeaf

  /** The blocks hold a proper tree rooted in block 0; no block is used twice. */
  ghost predicate Held(nodes: map<nat, Node>, tree: Tree, cap: nat) {
    && cap > ROOT_MAX
    && 0 in nodes
    && tree.blk == 0
    && Stored(nodes, tree, nodes[0].depth, cap)
    && Shape(tree)
    && Sorted(Flat(tree))
    && (forall b :: Count(tree, b) <= if b in nodes then 1 else 0)
  }

  /** Every metadata block belongs to the tree. */
  ghost predicate NoLeak(nodes: map<nat, Node>, tree: Tree) {
    forall b :: b in nodes ==> Count(tree, b) == 1
  }

  /** The allocator hands out unused blocks. */
  ghost predicate PoolFresh(pool: seq<nat>, nodes: map<nat, Node>) {
    && (forall i :: 0 <= i < |pool| ==> pool[i] != 0 && pool[i] !in nodes)
    && (forall i, j :: 0 <= i < j < |pool| ==> pool[i] != pool[j])
  }

  /** The path can be followed in the blocks: what the source's pointers guarantee. */
  ghost predicate Walkable(m: map<nat, Node>, path: seq<PathEnt>) {
    && |path| > 0
    && (forall j :: 0 <= j < |path| ==> path[j].blk in m)
    && (forall j :: 0 <= j < |path| - 1 ==>
          0 <= path[j].pos < |m[path[j].blk].entries| && m[path[j].blk].entries[path[j].pos].Index?)
    && (forall i, j :: 0 <= i < j < |path| ==> path[i].blk != path[j].blk)
  }

  /** Node n with the key at position p changed. */
  function KeyTo(n: Node, p: int, key: nat): Node
    requires 0 <= p < |n.entries|
  {
    n.(entries := SetKey(n.entries, p, key))
  }

  /** m' is m with the keys on the path above level i set to key wherever they lead
      straight down to the first entry of level i. */
  ghost predicate KeysSet(m: map<nat, Node>, m': map<nat, Node>, path: seq<PathEnt>, i: nat, fix: bool, key: nat)
    requires i < |path| && Walkable(m, path)
  {
    && m'.Keys == m.Keys
    && (forall j :: 0 <= j < i ==>
          m'[path[j].blk] ==
          if fix && AllZero(path, j + 1, i)
          then KeyTo(m[path[j].blk], path[j].pos, key)
          else m[path[j].blk])
    && (forall b :: b in m && (forall j :: 0 <= j < i ==> path[j].blk != b) ==> m'[b] == m[b])
  }

  lemma {:induction false} PathNode(m: map<nat, Node>, t: Tree, h: nat, cap: nat, path: seq<PathEnt>, k: nat, j: nat)
    requires Stored(m, t, h, cap) && Shape(t) && OnPath(t, path, k) && k <= j < |path|
    ensures path[j].blk in m && SubAt(t, path, k, j).blk == path[j].blk
    ensures j - k <= h && Stored(m, SubAt(t, path, k, j), h - (j - k), cap)
    ensures j + 1 < |path| ==> SubAt(t, path, k, j).Inner? && 0 <= path[j].pos < |SubAt(t, path, k, j).kids|
    ensures j + 1 == |path| ==> SubAt(t, path, k, j).Leaf? && j - k == h
    decreases t
  {
    SubOnPath(t, path, k, j);
    if j > k {
      PathNode(m, t.kids[path[k].pos], h - 1, cap, path, k + 1, j);
    }
  }

  lemma {:induction false} PathDistinct(t: Tree, path: seq<PathEnt>, k: nat, i: nat, j: nat)
    requires Distinct(t) && OnPath(t, path, k) && k <= i < j < |path|
    ensures path[i].blk != path[j].blk
    decreases t
  {
    var kid := t.kids[path[k].pos];
    forall b
      ensures Count(kid, b) + (if b == t.blk then 1 else 0) <= Count(t, b) <= 1
    {
      CountAllAt(t.kids, path[k].pos, b);
    }
    if i > k {
      PathDistinct(kid, path, k + 1, i, j);
    } else {
      PathBlock(kid, path, k + 1, j);
    }
  }

  lemma {:induction false} PathWalkable(m: map<nat, Node>, t: Tree, h: nat, cap: nat, path: seq<PathEnt>)
    requires Stored(m, t, h, cap) && Shape(t) && Distinct(t) && OnPath(t, path, 0)
    ensures Walkable(m, path) && |path| == h + 1
  {
    forall j | 0 <= j < |path|
      ensures path[j].blk in m
      ensures j < |path| - 1 ==>
              0 <= path[j].pos < |m[path[j].blk].entries| && m[path[j].blk].entries[path[j].pos].Index?
    {
      PathNode(m, t, h, cap, path, 0, j);
      SubOnPath(t, path, 0, j);
    }
    PathNode(m, t, h, cap, path, 0, |path| - 1);
    forall i, j | 0 <= i < j < |path|
      ensures path[i].blk != path[j].blk
    {
      PathDistinct(t, path, 0, i, j);
    }
  }
}
