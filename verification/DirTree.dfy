/** A hashed directory: lookup, insertion, and growth of leaves and index.
    Models lwext4/src/ext4_dir_idx.c without metadata checksums. */
module DirTree {
  import opened DirBlock
  import opened DirSplit
  import opened DirIndex

  datatype Err = EOK | ENOSPC

  class Directory {
    /** The hash of a name: an even number, as the source makes it. */
    const h: string -> nat
    /** Bytes per block, and entries that fit into the root and into other index nodes. */
    const size: nat
    const rootLimit: nat
    const nodeLimit: nat
    /** indirect_levels: 0 if the root points to leaves, 1 if it points to index nodes. */
    var levels: nat
    var root: seq<IdxEnt>
    var nodes: map<nat, seq<IdxEnt>>
    var leaves: map<nat, seq<DirRec>>
    /** Blocks the directory has, and how many can still be added to it. */
    var blocks: nat
    var avail: nat

    ghost function Run(): seq<Slot>
      reads this
    {
      AllSlots(levels, root, nodes)
    }

    /** The index is a tree of one or two levels. */
    ghost predicate IndexOk()
      reads this
    {
      IndexAt(levels, root, nodes, leaves, blocks)
    }

    ghost predicate IndexAt(levels: nat, root: seq<IdxEnt>, nodes: map<nat, seq<IdxEnt>>, leaves: map<nat, seq<DirRec>>,
                            blocks: nat) {
      && levels <= 1 && 0 < |root| <= rootLimit && 1 < rootLimit < nodeLimit
      && (forall b :: b in nodes ==> b < blocks && 0 < |nodes[b]| <= nodeLimit && b !in leaves)
      && (forall b :: b in leaves ==> b < blocks)
      && (levels == 1 ==>
            && (forall p :: 0 <= p < |root| ==> root[p].block in nodes)
            && (forall p, q :: 0 <= p < q < |root| ==> root[p].block != root[q].block))
    }

    ghost predicate Valid()
      reads this
    {
      && 1024 <= size && size % 8 == 0 && (forall s :: h(s) % 2 == 0)
      && IndexOk() && Ordered(Run()) && LeavesOk(h, Run(), leaves, size)
    }

    /** How many records hold the entry, found by scanning every leaf. */
    ghost function Count(e: DirEnt): nat
      reads this
    {
      LiveAll(Run(), leaves, e)
    }

    /** The entries of the index node on depth d of a path. */
    function Entries(path: seq<nat>, d: nat): seq<IdxEnt>
      requires d <= 1 && d < |path| && (d == 1 ==> path[0] < |root| && root[path[0]].block in nodes)
      reads this
    {
      if d == 0 then root else nodes[root[path[0]].block]
    }

    /** Index nodes before the one the path goes through hold this many slots. */
    ghost function Before(p: nat): nat
      requires p <= |root|
      reads this
    {
      |FlatC(Chunks(root, nodes)[..p])|
    }

    /** The path leads to slot g. */
    ghost predicate PathTo(path: seq<nat>, g: nat)
      reads this
    {
      && |path| == levels + 1 && path[0] < |root|
      && (levels == 1 ==>
            && root[path[0]].block in nodes
            && path[1] < |nodes[root[path[0]].block]|
            && g == Before(path[0]) + path[1])
      && (levels == 0 ==> g == path[0])
    }

    /** The position of the last entry whose hash is not above x, the first entry's counting as
        lowest: the binary search of ext4_dir_dx_get_leaf in one node. */
    method Probe(es: seq<IdxEnt>, x: nat) returns (at: nat)
      requires es != [] && forall i, j :: 1 <= i < j < |es| ==> es[i].hash <= es[j].hash
      ensures at < |es| && (at > 0 ==> es[at].hash <= x) && (at + 1 < |es| ==> x < es[at + 1].hash)
    {
      var p, q := 1, |es| - 1;
      while p <= q
        invariant 1 <= p <= |es| && p <= q + 1 && 0 <= q < |es|
        invariant p > 1 ==> es[p - 1].hash <= x
        invariant q + 1 < |es| ==> x < es[q + 1].hash
      {
        var m := p + (q - p) / 2;
        if es[m].hash > x {
          q := m - 1;
        } else {
          p := m + 1;
        }
      }
      at := p - 1;
    }

    lemma {:induction false} ChunkAt(p: nat)
      requires IndexOk() && levels == 1 && p < |root|
      ensures Before(p) + |nodes[root[p].block]| <= |Run()|
      ensures forall q {:trigger nodes[root[p].block][q]} :: 0 <= q < |nodes[root[p].block]| ==>
                Run()[Before(p) + q] ==
                    Slot(if q == 0 then KeyOf(root, p) else nodes[root[p].block][q].hash, nodes[root[p].block][q].block)
      ensures Run()[Before(p)].key == KeyOf(root, p)
      ensures p + 1 < |root| ==>
                && Before(p + 1) == Before(p) + |nodes[root[p].block]| < |Run()|
                && Run()[Before(p + 1)].key == root[p + 1].hash
      ensures p + 1 == |root| ==> Before(p) + |nodes[root[p].block]| == |Run()|
      ensures Before(0) == 0
    {
      hide FlatC;
      var cs := Chunks(root, nodes);
      ChunkFacts(cs, p);
      ChunkEnds(cs);
      assert cs[p][0].key == KeyOf(root, p);
      forall q {:trigger nodes[root[p].block][q]} | 0 <= q < |nodes[root[p].block]|
        ensures Run()[Before(p) + q] ==
                Slot(if q == 0 then KeyOf(root, p) else nodes[root[p].block][q].hash, nodes[root[p].block][q].block)
      {
        assert cs[p][q] == Run()[Before(p) + q];
      }
      if p + 1 < |root| {
        ChunkFacts(cs, p + 1);
        assert cs[p + 1][0].key == KeyOf(root, p + 1);
      }
    }

    lemma {:induction false} RootSorted()
      requires IndexOk() && Ordered(Run())
      ensures forall i, j :: 1 <= i < j < |root| ==> root[i].hash <= root[j].hash
    {
      if levels == 1 {
        forall i, j | 1 <= i < j < |root|
          ensures root[i].hash <= root[j].hash
        {
          ChunkAt(i);
          ChunkAt(j);
          BeforeUp(i, j);
        }
      } else {
        assert forall i :: 0 <= i < |root| ==> Run()[i] == Slot(if i == 0 then 0 else root[i].hash, root[i].block);
      }
    }

    lemma {:induction false} BeforeUp(i: nat, j: nat)
      requires IndexOk() && levels == 1 && i < j < |root|
      ensures Before(i) + |nodes[root[i].block]| <= Before(j)
      decreases j - i
    {
      ChunkAt(i);
      if i + 1 < j {
        BeforeUp(i + 1, j);
      }
    }

    lemma {:induction false} NodeSorted(p: nat)
      requires IndexOk() && Ordered(Run()) && levels == 1 && p < |root|
      ensures var es := nodes[root[p].block]; forall i, j :: 1 <= i < j < |es| ==> es[i].hash <= es[j].hash
    {
      ChunkAt(p);
    }

    /** Walks down the index to the leaf where hash x may begin: ext4_dir_dx_get_leaf. */
    method GetLeaf(x: nat) returns (path: seq<nat>, ghost g: nat)
      requires IndexOk() && Ordered(Run())
      ensures PathTo(path, g) && Reached(Run(), g, x)
    {
      hide FlatC, Chunks, Ordered;
      var indLevel := levels;
      var entries := root;
      path := [];
      RootSorted();
      var at := Probe(entries, x);
      path := path + [at];
      if indLevel == 0 {
        g := at;
        return;
      }
      entries := nodes[root[at].block];
      NodeSorted(at);
      ChunkAt(at);
      var at2 := Probe(entries, x);
      path := path + [at2];
      g := Before(at) + at2;
      assert entries[at2] == nodes[root[at].block][at2];
      if at2 + 1 < |entries| {
        assert entries[at2 + 1] == nodes[root[at].block][at2 + 1];
      }
    }

    /** Moves the path on to the next leaf if that may hold more names with the same hash:
        ext4_dir_dx_next_block. */
    method NextBlock(x: nat, path0: seq<nat>, ghost g: nat) returns (more: bool, path: seq<nat>)
      requires IndexOk() && PathTo(path0, g) && g < |Run()| && x % 2 == 0
      ensures more <==> g + 1 < |Run()| && Run()[g + 1].key / 2 * 2 == x
      ensures more ==> PathTo(path, g + 1)
    {
      hide FlatC, Chunks, Ordered;
      path := path0;
      var numHandles, p := 0, |path| - 1;
      NextFacts(path0, g);
      while true
        invariant 0 <= p < |path| == |path0| && numHandles == |path| - 1 - p
        invariant forall d :: 0 <= d <= p ==> path[d] == path0[d]
        invariant p < |path| - 1 ==> path0[1] + 1 >= |nodes[root[path0[0]].block]|
        decreases p
      {
        var cnt := |Entries(path0, p)|;
        path := path[p := path[p] + 1];
        if path[p] < cnt {
          break;
        }
        if p == 0 {
          return false, path;
        }
        numHandles := numHandles + 1;
        p := p - 1;
      }
      var currentHash := Entries(path0, p)[path[p]].hash;
      if x % 2 == 0 && currentHash / 2 * 2 != x {
        return false, path;
      }
      while numHandles > 0
        invariant 0 <= p && p + numHandles == |path| - 1 && |path| == |path0|
        invariant path[0] == if p + numHandles == 0 || path0[1] + 1 >= |nodes[root[path0[0]].block]| then path0[0] + 1
                             else path0[0]
        invariant p == 1 ==> path[1] == if path0[1] + 1 >= |nodes[root[path0[0]].block]| then 0 else path0[1] + 1
      {
        p := p + 1;
        path := path[p := 0];
        numHandles := numHandles - 1;
      }
      more := true;
    }

    /** The slot after the one a path leads to. */
    lemma {:induction false} NextFacts(path: seq<nat>, g: nat)
      requires IndexOk() && PathTo(path, g) && g < |Run()|
      ensures levels == 0 ==> |Run()| == |root| && (g + 1 < |root| ==> Run()[g + 1].key == root[g + 1].hash)
      ensures levels == 1 ==>
                var es, p, q := nodes[root[path[0]].block], path[0], path[1];
                && (q + 1 < |es| ==> g + 1 < |Run()| && Run()[g + 1].key == es[q + 1].hash)
                && (q + 1 >= |es| && p + 1 < |root| ==>
                    g + 1 == Before(p + 1) < |Run()| && Run()[g + 1].key == root[p + 1].hash)
                && (q + 1 >= |es| && p + 1 >= |root| ==> g + 1 == |Run()|)
    {
      if levels == 1 {
        ChunkAt(path[0]);
        if path[1] + 1 < |nodes[root[path[0]].block]| {
          assert nodes[root[path[0]].block][path[1] + 1] == nodes[root[path[0]].block][path[1] + 1];
        }
      }
    }

    /** The entry a path ends at is the one of its slot. */
    lemma {:induction false} SlotAt(path: seq<nat>, g: nat)
      requires IndexOk() && PathTo(path, g)
      ensures g < |Run()| && Entries(path, levels)[path[levels]].block == Run()[g].leaf
    {
      if levels == 1 {
        ChunkAt(path[0]);
        assert nodes[root[path[0]].block][path[1]] == Entries(path, levels)[path[levels]];
      }
    }

    ghost predicate NoName(j: nat, name: string)
      requires j < |Run()| && Run()[j].leaf in leaves
      reads this
    {
      var rs := leaves[Run()[j].leaf];
      forall i :: 0 <= i < |rs| ==> !IsLive(rs[i], name)
    }

    /** A record with the name in leaf j puts j in the range of the name's hash. */
    lemma {:induction false} NameInRange(j: nat, name: string)
      requires Valid() && j < |Run()| && Run()[j].leaf in leaves && !NoName(j, name)
      ensures InRange(Run(), j, h(name)) && h(name) % 2 == 0
    {
    }

    lemma {:induction false} NotThere(name: string, inode: nat)
      requires Valid() && forall j :: 0 <= j < |Run()| ==> Run()[j].leaf in leaves && NoName(j, name)
      ensures Count(DirEnt(name, inode)) == 0
    {
      var e := DirEnt(name, inode);
      LiveAllIff(Run(), leaves, e);
      forall j | 0 <= j < |Run()|
        ensures Live(leaves[Run()[j].leaf], e) == 0
      {
        LiveIff(leaves[Run()[j].leaf], e);
        assert NoName(j, name);
      }
    }

    lemma {:induction false} ThereAt(name: string, j: nat, i: nat)
      requires Valid() && j < |Run()| && Run()[j].leaf in leaves && i < |leaves[Run()[j].leaf]|
               && IsLive(leaves[Run()[j].leaf][i], name)
      ensures Count(DirEnt(name, leaves[Run()[j].leaf][i].inode)) > 0
    {
      var e := DirEnt(name, leaves[Run()[j].leaf][i].inode);
      LiveAllIff(Run(), leaves, e);
      LiveIff(leaves[Run()[j].leaf], e);
      assert Holds(leaves[Run()[j].leaf][i], e);
    }

    /** The leaves of slots from a up to b do not have the name. */
    ghost predicate Scanned(a: nat, b: nat, name: string)
      reads this
    {
      b <= |Run()| && forall j :: a <= j < b ==> Run()[j].leaf in leaves && NoName(j, name)
    }

    lemma {:induction false} ScannedNone(g: nat, name: string)
      requires g <= |Run()|
      ensures Scanned(g, g, name)
    {
    }

    lemma {:induction false} ScannedMore(a: nat, g: nat, name: string)
      requires g < |Run()| && Scanned(a, g, name) && Run()[g].leaf in leaves
      requires var rs := leaves[Run()[g].leaf]; forall i :: 0 <= i < |rs| ==> !IsLive(rs[i], name)
      ensures Scanned(a, g + 1, name)
    {
    }

    /** Looks a name up through the index: ext4_dir_dx_find_entry. It is found exactly if some leaf
        has it, although only leaves its hash may be in are read. */
    method FindEntry(name: string) returns (found: bool, leaf: nat, at: nat, ghost g: nat)
      requires Valid()
      ensures found ==>
              g < |Run()| && Run()[g].leaf == leaf && leaf in leaves && at < |leaves[leaf]|
              && IsLive(leaves[leaf][at], name)
      ensures found ==> Count(DirEnt(name, leaves[leaf][at].inode)) > 0
      ensures !found ==> forall i :: Count(DirEnt(name, i)) == 0
    {
      hide AllSlots, InPlace, Tiled, LiveAll, Reached, Ordered, Live, IsLive, Scanned;
      var x := h(name);
      ghost var g0;
      var path;
      path, g := GetLeaf(x);
      g0 := g;
      var more := true;
      SlotAt(path, g);
      ScannedNone(g, name);
      while more
        invariant g0 <= g < |Run()| && (more ==> PathTo(path, g))
        invariant Scanned(g0, if more then g else g + 1, name)
        invariant !more ==> g + 1 == |Run()| || Run()[g + 1].key / 2 * 2 != x
        decreases |Run()| - g, more
      {
        SlotAt(path, g);
        leaf := Entries(path, levels)[path[levels]].block;
        found, at := FindInBlock(leaves[leaf], size, name);
        if found {
          ThereAt(name, g, at);
          return;
        }
        ScannedMore(g0, g, name);
        more, path := NextBlock(x, path, g);
        if more {
          g := g + 1;
        }
      }
      NotFound(name, g0, g);
      return false, 0, 0, g;
    }

    /** When the leaves from where the search began to where the hash was no longer continued do not
        have the name, no leaf has it. */
    lemma {:induction false} NotFound(name: string, g0: nat, g: nat)
      requires Valid() && g0 <= g < |Run()| && Reached(Run(), g0, h(name))
      requires Scanned(g0, g + 1, name)
      requires g + 1 == |Run()| || Run()[g + 1].key / 2 * 2 != h(name)
      ensures forall i :: Count(DirEnt(name, i)) == 0
    {
      hide AllSlots, InPlace, Tiled, LiveAll;
      forall j | 0 <= j < |Run()|
        ensures Run()[j].leaf in leaves && NoName(j, name)
      {
        if !NoName(j, name) {
          NameInRange(j, name);
          NotBefore(Run(), g0, j, h(name));
        }
      }
      forall i
        ensures Count(DirEnt(name, i)) == 0
      {
        NotThere(name, i);
      }
    }

    /** Puts an entry after the position in an index node: ext4_dir_dx_insert_entry. The caller has
        checked that there is room. */
    method InsertEntry(path: seq<nat>, d: nat, hash: nat, iblock: nat)
      requires d <= 1 && d < |path| && (d == 1 ==> path[0] < |root| && root[path[0]].block in nodes)
               && path[d] < |Entries(path, d)|
      modifies this`root, this`nodes
      ensures var es := old(Entries(path, d));
              var es' := es[..path[d] + 1] + [IdxEnt(hash, iblock)] + es[path[d] + 1..];
              if d == 0 then root == es' && nodes == old(nodes)
              else root == old(root) && nodes == old(nodes)[root[path[0]].block := es']
    {
      var es := Entries(path, d);
      var new_ := es[..path[d] + 1] + [IdxEnt(hash, iblock)] + es[path[d] + 1..];
      if d == 0 {
        root := new_;
      } else {
        nodes := nodes[root[path[0]].block := new_];
      }
    }

    /** The index node a path ends in is full. */
    predicate Full(path: seq<nat>)
      requires levels <= 1 && |path| == levels + 1 && (levels == 1 ==> path[0] < |root| && root[path[0]].block in nodes)
      reads this
    {
      |Entries(path, levels)| >= if levels == 0 then rootLimit else nodeLimit
    }

    /** The index cannot grow any more: there are two levels, and the upper one is full. */
    predicate TopFull()
      reads this
    {
      levels > 0 && |root| == rootLimit
    }

    /** Makes room in the index node a path ends in, if it is full: ext4_dir_dx_split_index. A full
        root gets a level below it; a full node of the lower level is cut in two, unless the root is
        full as well. The leaves and their order do not change. */
    method SplitIndex(path0: seq<nat>, ghost g: nat) returns (err: Err, path: seq<nat>)
      requires Valid() && PathTo(path0, g)
      modifies this`levels, this`root, this`nodes, this`blocks, this`avail
      ensures Valid() && Run() == old(Run())
      ensures err == EOK ==> PathTo(path, g) && |Entries(path, levels)| < if levels == 0 then rootLimit else nodeLimit
      ensures err == EOK ==> avail == old(avail) - if old(Full(path0)) then 1 else 0
      ensures err == ENOSPC <==> old(Full(path0)) && (old(TopFull()) || old(avail) == 0)
      ensures err == ENOSPC ==> unchanged(this)
    {
      path := path0;
      var e := Entries(path, levels);
      if |e| < (if levels == 0 then rootLimit else nodeLimit) {
        return EOK, path;
      }
      if levels > 0 && |root| == rootLimit {
        return ENOSPC, path;
      }
      if avail == 0 {
        return ENOSPC, path;
      }
      if levels > 0 {
        path := CutNode(path, g);
      } else {
        path := GrowRoot(path, g);
      }
      err := EOK;
    }

    /** Cuts a full node of the lower level in two. */
    method CutNode(path0: seq<nat>, ghost g: nat) returns (path: seq<nat>)
      requires Valid() && PathTo(path0, g) && levels == 1 && |root| < rootLimit && avail > 0
               && |Entries(path0, 1)| == nodeLimit
      modifies this`root, this`nodes, this`blocks, this`avail
      ensures Valid() && Run() == old(Run()) && PathTo(path, g) && |Entries(path, 1)| < nodeLimit
      ensures avail == old(avail) - 1
    {
      hide *;
      ValidIs();
      PathIs(path0, g);
      path := path0;
      var e := Entries(path, 1);
      var newIblk := blocks;
      blocks, avail := blocks + 1, avail - 1;
      var countLeft := |e| / 2;
      var hashRight := e[countLeft].hash;
      var b := root[path[0]].block;
      nodes := nodes[newIblk := e[countLeft..]][b := e[..countLeft]];
      EntriesIs(path, 0);
      InsertEntry(path, 0, hashRight, newIblk);
      if path[1] >= countLeft {
        path := [path[0] + 1, path[1] - countLeft];
      }
      CutDone(old(root), old(nodes), old(blocks), path0, path, g);
    }

    lemma {:induction false} ValidIs()
      requires Valid()
      ensures 1024 <= size && size % 8 == 0 && (forall s :: h(s) % 2 == 0)
      ensures IndexAt(levels, root, nodes, leaves, blocks) && Ordered(Run()) && LeavesOk(h, Run(), leaves, size)
      ensures Run() == AllSlots(levels, root, nodes)
    {
    }

    lemma {:induction false} PathIs(path: seq<nat>, g: nat)
      requires Valid() && PathTo(path, g) && levels == 1
      ensures |path| == 2 && path[0] < |root| && root[path[0]].block in nodes
      ensures Entries(path, 1) == nodes[root[path[0]].block] && path[1] < |Entries(path, 1)|
      ensures g == |FlatC(Chunks(root, nodes)[..path[0]])| + path[1] && nodeLimit > 2
      ensures blocks !in nodes
    {
      assert blocks in nodes ==> blocks < blocks;
    }

    lemma {:induction false} EntriesIs(path: seq<nat>, d: nat)
      requires d <= 1 && d < |path| && (d == 1 ==> path[0] < |root| && root[path[0]].block in nodes)
      ensures Entries(path, d) == if d == 0 then root else nodes[root[path[0]].block]
    {
    }

    /** After the cut of a full index node. */
    lemma {:induction false} CutDone(root0: seq<IdxEnt>, nodes0: map<nat, seq<IdxEnt>>, blocks0: nat, path0: seq<nat>,
            path: seq<nat>, g: nat)
      requires 1024 <= size && size % 8 == 0 && (forall s :: h(s) % 2 == 0)
      requires IndexAt(1, root0, nodes0, leaves, blocks0) && Ordered(AllSlots(1, root0, nodes0))
               && LeavesOk(h, AllSlots(1, root0, nodes0), leaves, size)
      requires levels == 1 && |root0| < rootLimit && blocks == blocks0 + 1
      requires |path0| == 2 && path0[0] < |root0| && root0[path0[0]].block in nodes0
      requires var e := nodes0[root0[path0[0]].block];
               && |e| == nodeLimit && path0[1] < |e| && g == |FlatC(Chunks(root0, nodes0)[..path0[0]])| + path0[1]
               && nodes == nodes0[blocks0 := e[|e| / 2..]][root0[path0[0]].block := e[..|e| / 2]]
               && root == root0[..path0[0] + 1] + [IdxEnt(e[|e| / 2].hash, blocks0)] + root0[path0[0] + 1..]
               && path == if path0[1] >= |e| / 2 then [path0[0] + 1, path0[1] - |e| / 2] else path0
      ensures Valid() && Run() == AllSlots(1, root0, nodes0) && PathTo(path, g) && |Entries(path, 1)| < nodeLimit
    {
      hide FlatC, Chunks, Ordered, LeavesOk, Slots;
      var c := |nodes0[root0[path0[0]].block]| / 2;
      NodeCut(root0, nodes0, path0[0], c, blocks0, root, nodes);
      NodesCut(root0, nodes0, path0[0], c, blocks0, root, nodes);
    }

    /** Moves the entries of the full root into a new node below it. */
    method GrowRoot(path0: seq<nat>, ghost g: nat) returns (path: seq<nat>)
      requires Valid() && PathTo(path0, g) && levels == 0 && avail > 0 && |root| == rootLimit
      modifies this`levels, this`root, this`nodes, this`blocks, this`avail
      ensures Valid() && Run() == old(Run()) && levels == 1 && PathTo(path, g) && |Entries(path, 1)| < nodeLimit
      ensures avail == old(avail) - 1
    {
      hide FlatC, Chunks, Ordered, LeavesOk, Slots;
      var newIblk := blocks;
      blocks, avail := blocks + 1, avail - 1;
      RootMoved(root, nodes, root[0].hash, newIblk);
      nodes := nodes[newIblk := root];
      root := [IdxEnt(root[0].hash, newIblk)];
      levels := 1;
      path := [0, path0[0]];
    }

    /** A block can take a new entry of this size, or can be split if it cannot. */
    ghost predicate Splittable(rs: seq<DirRec>, need: nat) {
      RoomIn(rs, need) || LiveSize(rs) > size / 2
    }

    ghost predicate PathIn(path: seq<nat>)
      reads this
    {
      levels <= 1 && |path| == levels + 1 && (levels == 1 ==> path[0] < |root| && root[path[0]].block in nodes)
    }

    /** The first leaf begins at hash 0. */
    lemma {:induction false} FirstKey()
      requires IndexOk()
      ensures |Run()| > 0 && Run()[0].key == 0
    {
      if levels == 1 {
        ChunkAt(0);
      }
    }

    /** One entry put into the leaf of slot g. */
    method Store(ghost g: nat, leaf: nat, rs: seq<DirRec>, e: DirEnt)
      requires Valid() && g < |Run()| && Run()[g].leaf == leaf && leaf in leaves
      requires Tiled(rs, size) && Added(leaves[leaf], rs, e) && InRange(Run(), g, h(e.name))
      modifies this`leaves
      ensures Valid() && forall x :: Count(x) == old(Count(x)) + if x == e then 1 else 0
      ensures leaves == old(leaves)[leaf := rs]
    {
      hide FlatC, Chunks, Ordered, Slots, InPlace, Tiled, LiveAll, AllSlots, Live, LiveSize, InRange;
      LeafFacts(g);
      AddedInPlace(h, Run(), g, leaves[leaf], rs, e);
      LeafChanged(h, Run(), leaves, size, g, rs);
      leaves := leaves[leaf := rs];
    }

    /** Shares the entries of a full leaf out to it and a new one: ext4_dir_dx_split_data. */
    method SplitData(path: seq<nat>, ghost g: nat)
      returns (err: Err, newIblock: nat, ghost key: nat, ghost items: seq<DirRec>, ghost mid: nat)
      requires Valid() && PathTo(path, g) && g < |Run()|
               && |Entries(path, levels)| < if levels == 0 then rootLimit else nodeLimit
      requires Run()[g].leaf in leaves && LiveSize(leaves[Run()[g].leaf]) > size / 2
      modifies this`root, this`nodes, this`leaves, this`blocks, this`avail
      ensures Valid()
      ensures err == ENOSPC <==> old(avail) == 0
      ensures err == ENOSPC ==> unchanged(this)
      ensures err == EOK ==>
                && avail == old(avail) - 1
                && Run() == WithSlot(old(Run()), g, Slot(key, newIblock)) && old(Run())[g].leaf in leaves
                   && newIblock in leaves
                && Halved(h, old(leaves[Run()[g].leaf]), size, items, mid) && 0 < mid < |items|
                   && key == SplitKey(h, items, mid)
                && RoomBeside(leaves[old(Run())[g].leaf], items[..mid], size)
                   && RoomBeside(leaves[newIblock], items[mid..], size)
                && PathIn(path) && path[levels] + 1 < |Entries(path, levels)|
                && Entries(path, levels)[path[levels] + 1] == IdxEnt(key, newIblock)
                && (forall b :: b in old(leaves) && b != old(Run())[g].leaf ==>
                      b in leaves && leaves[b] == old(leaves)[b])
                && forall e :: Count(e) == old(Count(e))
      ensures old(Compact(leaves)) ==> Compact(leaves)
    {
      hide *;
      if avail == 0 {
        return ENOSPC, 0, 0, [], 0;
      }
      ValidIs();
      CountIs();
      PathAt(path, g);
      SlotAt(path, g);
      var leaf := Entries(path, levels)[path[levels]].block;
      LeafFacts(g);
      var low, high, k;
      low, high, k, items, mid := Divide(h, leaves[leaf], size, Run(), g);
      newIblock := blocks;
      blocks, avail := blocks + 1, avail - 1;
      CompactWith(leaves, leaf, low, newIblock, high);
      leaves := leaves[leaf := low][newIblock := high];
      EntriesIs(path, levels);
      InsertEntry(path, levels, k, newIblock);
      DataDone(old(root), old(nodes), old(leaves), newIblock, path, g, low, high, k);
      key := k;
      err := EOK;
    }

    /** The new index entry is one new slot. */
    lemma {:induction false} CountIs()
      ensures forall e :: Count(e) == LiveAll(Run(), leaves, e)
    {
    }

    lemma {:induction false} PathAt(path: seq<nat>, g: nat)
      requires Valid() && PathTo(path, g)
      ensures levels <= 1 && |path| == levels + 1 && PathIn(path) && path[levels] < |Entries(path, levels)|
      ensures PathsIn(levels, root, nodes, path, g) && blocks !in leaves
      ensures path[0] < |root| && (levels == 1 ==> root[path[0]].block in nodes)
      ensures Entries(path, levels) == if levels == 0 then root else nodes[root[path[0]].block]
    {
      assert blocks in leaves ==> blocks < blocks;
    }

    /** PathTo, on values. */
    ghost predicate PathsIn(levels: nat, root: seq<IdxEnt>, nodes: map<nat, seq<IdxEnt>>, path: seq<nat>, g: nat) {
      && levels <= 1 && |path| == levels + 1 && path[0] < |root|
      && if levels == 0 then
           g == path[0]
         else
           && (forall p :: 0 <= p < |root| ==> root[p].block in nodes)
           && path[1] < |nodes[root[path[0]].block]|
           && g == |FlatC(Chunks(root, nodes)[..path[0]])| + path[1]
    }

    /** After a leaf was split. */
    lemma {:induction false} DataDone(root0: seq<IdxEnt>, nodes0: map<nat, seq<IdxEnt>>,
            leaves0: map<nat, seq<DirRec>>, nb: nat, path: seq<nat>, g: nat, low: seq<DirRec>, high: seq<DirRec>,
            k: nat)
      requires 1024 <= size && size % 8 == 0 && (forall s :: h(s) % 2 == 0) && blocks == nb + 1 && nb !in leaves0
      requires IndexAt(levels, root0, nodes0, leaves0, nb) && Ordered(AllSlots(levels, root0, nodes0))
               && LeavesOk(h, AllSlots(levels, root0, nodes0), leaves0, size)
      requires PathsIn(levels, root0, nodes0, path, g)
      requires levels == 0 ==>
                 && |root0| < rootLimit && nodes == nodes0
                 && root == root0[..path[0] + 1] + [IdxEnt(k, nb)] + root0[path[0] + 1..]
      requires levels == 1 ==>
                 && root == root0 && root0[path[0]].block in nodes0
                 && var es := nodes0[root0[path[0]].block];
                    && |es| < nodeLimit
                    && nodes == nodes0[root0[path[0]].block := es[..path[1] + 1] + [IdxEnt(k, nb)] + es[path[1] + 1..]]
      requires g < |AllSlots(levels, root0, nodes0)| && AllSlots(levels, root0, nodes0)[g].leaf in leaves0
      requires var run, leaf := AllSlots(levels, root0, nodes0), AllSlots(levels, root0, nodes0)[g].leaf;
               && SplitOk(h, run, g, size, leaves0[leaf], low, high, k)
               && leaves == leaves0[leaf := low][nb := high]
      ensures Valid() && Run() == WithSlot(AllSlots(levels, root0, nodes0), g, Slot(k, nb)) && PathIn(path)
      ensures forall e :: Count(e) == LiveAll(AllSlots(levels, root0, nodes0), leaves0, e)
      ensures path[levels] + 1 < |Entries(path, levels)|
              && Entries(path, levels)[path[levels] + 1] == IdxEnt(k, nb)
    {
      hide FlatC, Chunks, Ordered, Slots, LeavesOk, SplitOk, LiveAll, AllSlots, WithSlot;
      LeafSplit(h, AllSlots(levels, root0, nodes0), leaves0, size, g, low, high, k, nb);
      Linked(root0, nodes0, path, g, k, nb);
    }

    lemma {:induction false} Linked(root0: seq<IdxEnt>, nodes0: map<nat, seq<IdxEnt>>, path: seq<nat>, g: nat, key: nat,
            nb: nat)
      requires levels <= 1 && |path| == levels + 1 && path[0] < |root0|
      requires levels == 0 ==> g == path[0] && root == root0[..path[0] + 1] + [IdxEnt(key, nb)] + root0[path[0] + 1..]
      requires levels == 1 ==>
                 && root == root0 && (forall p :: 0 <= p < |root0| ==> root0[p].block in nodes0)
                 && (forall p, q :: 0 <= p < q < |root0| ==> root0[p].block != root0[q].block)
                 && g == |FlatC(Chunks(root0, nodes0)[..path[0]])| + path[1]
                 && path[1] < |nodes0[root0[path[0]].block]|
                 && var es := nodes0[root0[path[0]].block];
                    nodes == nodes0[root0[path[0]].block := es[..path[1] + 1] + [IdxEnt(key, nb)] + es[path[1] + 1..]]
      ensures g < |AllSlots(levels, root0, nodes0)|
              && Run() == WithSlot(AllSlots(levels, root0, nodes0), g, Slot(key, nb))
    {
      if levels == 0 {
        SlotsInsert(root0, 0, g, IdxEnt(key, nb));
      } else {
        NodeInsert(root0, nodes0, path[0], path[1], IdxEnt(key, nb), nodes);
      }
    }

    lemma {:induction false} LeafFacts(g: nat)
      requires Valid() && g < |Run()|
      ensures Run()[g].leaf in leaves && Tiled(leaves[Run()[g].leaf], size)
              && InPlace(h, leaves[Run()[g].leaf], Run(), g)
    {
    }

    /** Adds an entry: ext4_dir_dx_add_entry, at the leaf of slot g, with a path that leads there. A leaf
        without room for the entry must be more than half full of live records. It is cut in two at mid in
        the order of the hashes, and whether the entry fits into its part is not checked by the
        source: it then reports success, and inserted tells whether it is right. When there is no room in
        the index, the source goes on to release a target block that it has not fetched: unfetched. */
    method AddEntry(name: string, inode: nat)
      returns (err: Err, ghost inserted: bool, ghost unfetched: bool, ghost path0: seq<nat>, ghost g: nat,
              ghost items: seq<DirRec>, ghost mid: nat)
      requires Valid() && 0 < |name| <= 255 && inode != 0
      requires forall j: nat :: Reached(Run(), j, h(name)) && Run()[j].leaf in leaves ==>
                 Splittable(leaves[Run()[j].leaf], Required(name))
      modifies this
      ensures Valid()
      ensures old(PathTo(path0, g)) && Reached(old(Run()), g, h(name)) && old(Run())[g].leaf in old(leaves)
      ensures err == ENOSPC <==> (old(Full(path0)) && old(TopFull())) || old(avail) < old(Wanted(path0, g, name))
      ensures unfetched <==> old(Full(path0)) && (old(TopFull()) || old(avail) == 0)
      ensures err == EOK ==> avail == old(avail) - old(Wanted(path0, g, name))
      ensures err == ENOSPC ==> !inserted && leaves == old(leaves)
      ensures forall e :: Count(e) == old(Count(e)) + if inserted && e == DirEnt(name, inode) then 1 else 0
      ensures err == EOK && RoomIn(old(leaves)[old(Run())[g].leaf], Required(name)) ==> inserted
      ensures err == EOK && !RoomIn(old(leaves)[old(Run())[g].leaf], Required(name)) ==>
                && Halved(h, old(leaves)[old(Run())[g].leaf], size, items, mid) && 0 < mid < |items|
                && (inserted <==> Total(Part(h, items, mid, h(name))) + Required(name) <= size)
      ensures err == EOK && !inserted ==> size <= 1040 && size / 2 <= Required(name) + 256
      ensures old(Compact(leaves)) ==> Compact(leaves)
    {
      hide NoGaps, FirstFit, FlatC, Chunks, Ordered, Slots, LeavesOk, Halved, RoomBeside, InPlace, Tiled, LiveAll,
          AllSlots, Live, LiveSize, RoomIn, Total, SplitKey, Reached, InRange, Added, Required, Part;
      inserted, items, mid := false, [], 0;
      var x := h(name);
      var path;
      path, g := GetLeaf(x);
      path0 := path;
      SlotAt(path, g);
      var leafBlockIdx := Entries(path, levels)[path[levels]].block;
      LeafFacts(g);
      err, path := SplitIndex(path, g);
      unfetched := err != EOK;
      if err != EOK {
        return;
      }
      LeafFacts(g);
      var e := DirEnt(name, inode);
      var ok, rs := TryInsert(leaves[leafBlockIdx], size, e);
      FirstKey();
      ReachedRange(Run(), g, x);
      if ok {
        Store(g, leafBlockIdx, rs, e);
        inserted := true;
        return;
      }
      err, inserted, items, mid := SplitAndInsert(path, g, leafBlockIdx, e);
    }

    /** Blocks that adding a name takes. */
    ghost function Wanted(path: seq<nat>, g: nat, name: string): nat
      requires PathTo(path, g) && levels <= 1 && g < |Run()| && Run()[g].leaf in leaves
      reads this
    {
      (if Full(path) then 1 else 0) + if RoomIn(leaves[Run()[g].leaf], Required(name)) then 0 else 1
    }

    /** The rest of ext4_dir_dx_add_entry, for a leaf without room: splits it and puts the entry
        into the half its hash belongs to. */
    method SplitAndInsert(path: seq<nat>, ghost g: nat, leaf: nat, e: DirEnt)
      returns (err: Err, ghost inserted: bool, ghost items: seq<DirRec>, ghost mid: nat)
      requires Valid() && PathTo(path, g) && g < |Run()|
               && |Entries(path, levels)| < if levels == 0 then rootLimit else nodeLimit
      requires Run()[g].leaf == leaf && leaf in leaves && LiveSize(leaves[leaf]) > size / 2
      requires Reached(Run(), g, h(e.name)) && 0 < |e.name| <= 255 && e.inode != 0
      modifies this`root, this`nodes, this`leaves, this`blocks, this`avail
      ensures Valid()
      ensures err == ENOSPC <==> old(avail) == 0
      ensures err == EOK ==> avail == old(avail) - 1
      ensures err == ENOSPC ==> !inserted && unchanged(this)
      ensures forall x :: Count(x) == old(Count(x)) + if inserted && x == e then 1 else 0
      ensures err == EOK ==>
                && Halved(h, old(leaves)[leaf], size, items, mid) && 0 < mid < |items|
                && (inserted <==> Total(Part(h, items, mid, h(e.name))) + Required(e.name) <= size)
      ensures err == EOK && !inserted ==> size <= 1040 && size / 2 <= Required(e.name) + 256
      ensures old(Compact(leaves)) ==> Compact(leaves)
    {
      hide NoGaps, FirstFit, FlatC, Chunks, Ordered, Slots, LeavesOk, Halved, RoomBeside, InPlace, Tiled, LiveAll,
          AllSlots, Live, LiveSize, RoomIn, Reached, Added, Total, SplitKey, Required;
      inserted := false;
      var x := h(e.name);
      ghost var full, run := leaves[leaf], Run();
      var newBlock;
      ghost var key;
      FirstKey();
      err, newBlock, key, items, mid := SplitData(path, g);
      if err != EOK {
        return;
      }
      TargetRange(run, g, x, key, newBlock);
      var blkHash := Entries(path, levels)[path[levels] + 1].hash;
      var target := if x >= blkHash then newBlock else leaf;
      ghost var g1 := if x >= key then g + 1 else g;
      LeafFacts(g1);
      var ok, rs := TryInsert(leaves[target], size, e);
      RoomIs(leaves[target], Part(h, items, mid, x), size, e.name);
      if ok {
        Store(g1, target, rs, e);
        inserted := true;
      } else {
        NoFit(h, full, size, items, mid, x, e.name);
      }
    }

    /** Removes an entry: ext4_dir_remove_entry. Afterwards the directory has exactly one record
        less, one with this name; without such a record nothing changes. Where the record was there is room
        for as much as it took and the one before it had to spare. */
    method RemoveEntry(name: string) returns (found: bool, inode: nat, ghost leaf: nat, ghost at: nat)
      requires Valid()
      modifies this`leaves
      ensures Valid()
      ensures !found ==> leaves == old(leaves) && forall i :: Count(DirEnt(name, i)) == 0
      ensures found ==> forall e :: old(Count(e)) == Count(e) + if e == DirEnt(name, inode) then 1 else 0
      ensures found ==>
                && leaf in old(leaves) && leaf in leaves && leaves == old(leaves)[leaf := leaves[leaf]]
                && (forall i :: 0 <= i < |old(leaves)[leaf]| ==> RecOk(old(leaves)[leaf][i]))
                && at < |old(leaves)[leaf]| && IsLive(old(leaves)[leaf][at], name)
                && Freed(old(leaves)[leaf], leaves[leaf], at)
                && (at == 0 || !old(leaves)[leaf][at - 1].tail ==>
                      forall need: nat :: RoomIn(leaves[leaf], need) <==>
                                          RoomIn(old(leaves)[leaf], need) || need <= FreedRoom(old(leaves)[leaf], at))
      ensures old(Compact(leaves)) ==> Compact(leaves)
    {
      hide NoGaps, RoomIn, FreedRoom, Freed, FlatC, Chunks, Ordered, Slots, InPlace, LiveAll, AllSlots, Live, LiveSize,
          Total;
      var block, i;
      ghost var g;
      found, block, i, g := FindEntry(name);
      inode, leaf, at := 0, block, i;
      if found {
        LeafFacts(g);
        inode := leaves[block][i].inode;
        var rs := Remove(leaves[block], size, i);
        RemovedInPlace(h, Run(), g, leaves[block], rs, DirEnt(name, inode));
        LeafChanged(h, Run(), leaves, size, g, rs);
        leaves := leaves[block := rs];
      }
    }
  }

  /** A directory of two empty leaves whose root is full, on a device without a free block. */
  lemma {:induction false} NoBlockExample(d: Directory)
    requires d.size == 1024 && d.rootLimit == 2 && d.nodeLimit == 3 && forall s :: d.h(s) % 2 == 0
    requires d.levels == 0 && d.root == [IdxEnt(0, 1), IdxEnt(100, 2)] && d.nodes == map[]
    requires d.leaves == map[1 := [DirRec(0, "", 1024, false)], 2 := [DirRec(0, "", 1024, false)]]
    requires d.blocks == 3 && d.avail == 0
    ensures d.Valid() && d.PathTo([0], 0) && d.Full([0]) && !d.TopFull() && RoomIn(d.leaves[d.Run()[0].leaf], 264)
  {
    var rs := [DirRec(0, "", 1024, false)];
    assert rs[..0] == [] && Total(rs) == 1024;
    assert d.Run() == [Slot(0, 1), Slot(100, 2)];
    assert HasRoom(rs[0], 264);
  }
}
