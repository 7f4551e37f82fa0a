/** The index of a hashed directory seen as one ordered run of leaves, and what a lookup relies on. */
module DirIndex {
  import opened DirBlock
  import opened DirSplit

  /** An index entry. The hash of the first entry of a node is not stored: the node's count and
      limit take its place. */
  datatype IdxEnt = IdxEnt(hash: nat, block: nat)

  /** A leaf block and the hash it starts at; odd if that hash is continued from the leaf before. */
  datatype Slot = Slot(key: nat, leaf: nat)

  /** The slots of one node whose first key, kept one level above, is key. */
  function Slots(es: seq<IdxEnt>, key: nat): (s: seq<Slot>)
    ensures |s| == |es|
  {
    seq(|es|, i requires 0 <= i < |es| => Slot(if i == 0 then key else es[i].hash, es[i].block))
  }

  function KeyOf(root: seq<IdxEnt>, p: nat): nat
    requires p < |root|
  {
    if p == 0 then 0 else root[p].hash
  }

  function FlatC(cs: seq<seq<Slot>>): seq<Slot> {
    if cs == [] then [] else cs[0] + FlatC(cs[1..])
  }

  /** The nodes below the root, one run of slots each. */
  function Chunks(root: seq<IdxEnt>, nodes: map<nat, seq<IdxEnt>>): (cs: seq<seq<Slot>>)
    ensures |cs| == |root|
  {
    seq(|root|, p requires 0 <= p < |root| =>
      if root[p].block in nodes then Slots(nodes[root[p].block], KeyOf(root, p)) else [])
  }

  /** All leaves in order, for an index of one or two levels. */
  function AllSlots(levels: nat, root: seq<IdxEnt>, nodes: map<nat, seq<IdxEnt>>): seq<Slot> {
    if levels == 0 then Slots(root, 0) else FlatC(Chunks(root, nodes))
  }

  lemma {:induction false} FlatConcat(a: seq<seq<Slot>>, b: seq<seq<Slot>>)
    ensures FlatC(a + b) == FlatC(a) + FlatC(b)
    decreases |a|
  {
    if a == [] {
      assert a + b == b;
    } else {
      assert (a + b)[1..] == a[1..] + b;
      FlatConcat(a[1..], b);
      assert a[0] + (FlatC(a[1..]) + FlatC(b)) == (a[0] + FlatC(a[1..])) + FlatC(b);
    }
  }

  lemma {:induction false} FlatOne(c: seq<Slot>)
    ensures FlatC([c]) == c
  {
    assert [c][1..] == [];
    assert c + [] == c;
  }

  /** The whole run around one node's run. */
  lemma {:induction false} FlatAround(cs: seq<seq<Slot>>, p: nat)
    requires p < |cs|
    ensures FlatC(cs) == FlatC(cs[..p]) + cs[p] + FlatC(cs[p + 1..])
  {
    assert cs == cs[..p] + [cs[p]] + cs[p + 1..];
    FlatConcat(cs[..p] + [cs[p]], cs[p + 1..]);
    FlatConcat(cs[..p], [cs[p]]);
    FlatOne(cs[p]);
  }

  lemma {:induction false} ChunkFacts(cs: seq<seq<Slot>>, p: nat)
    requires p < |cs|
    ensures |FlatC(cs[..p])| + |cs[p]| == |FlatC(cs[..p + 1])| <= |FlatC(cs)|
    ensures forall q {:trigger cs[p][q]} :: 0 <= q < |cs[p]| ==> FlatC(cs)[|FlatC(cs[..p])| + q] == cs[p][q]
  {
    FlatAround(cs, p);
    FlatAround(cs[..p + 1], p);
    assert cs[..p + 1][..p] == cs[..p] && cs[..p + 1][p + 1..] == [];
  }

  lemma {:induction false} ChunkEnds(cs: seq<seq<Slot>>)
    ensures |FlatC(cs[..0])| == 0 && |FlatC(cs[..|cs|])| == |FlatC(cs)|
  {
    assert cs[..0] == [] && cs[..|cs|] == cs;
  }

  // ---- what a lookup relies on ----

  /** The keys do not decrease. */
  predicate Ordered(slots: seq<Slot>) {
    forall i, j :: 0 <= i < j < |slots| ==> slots[i].key <= slots[j].key
  }

  /** Hash x may be stored in the j-th leaf. */
  predicate InRange(slots: seq<Slot>, j: nat, x: nat)
    requires j < |slots|
  {
    slots[j].key / 2 * 2 <= x && (j + 1 < |slots| ==> x < slots[j + 1].key)
  }

  /** Every live name is in a leaf its hash belongs to. */
  ghost predicate InPlace(h: string -> nat, rs: seq<DirRec>, slots: seq<Slot>, j: nat)
    requires j < |slots|
  {
    forall i :: 0 <= i < |rs| && rs[i].inode != 0 ==> InRange(slots, j, h(rs[i].name))
  }

  ghost predicate LeavesOk(h: string -> nat, slots: seq<Slot>, leaves: map<nat, seq<DirRec>>, size: nat) {
    && (forall j :: 0 <= j < |slots| ==>
          slots[j].leaf in leaves && Tiled(leaves[slots[j].leaf], size) && InPlace(h, leaves[slots[j].leaf], slots, j))
    && (forall i, j :: 0 <= i < j < |slots| ==> slots[i].leaf != slots[j].leaf)
  }

  /** How many live records in all leaves hold the entry: what a scan of all leaves finds. */
  ghost function LiveAll(slots: seq<Slot>, leaves: map<nat, seq<DirRec>>, e: DirEnt): nat {
    if slots == [] then 0 else
      LiveAll(slots[..|slots| - 1], leaves, e) +
      var b := slots[|slots| - 1].leaf; if b in leaves then Live(leaves[b], e) else 0
  }

  /** Where the search for hash x ends: at the last slot whose key is not above x. */
  predicate Reached(slots: seq<Slot>, g: nat, x: nat) {
    && g < |slots| && (g == 0 || slots[g].key <= x)
    && (g + 1 < |slots| ==> x < slots[g + 1].key)
  }

  /** A name is nowhere before the slot the search for its hash ends at, and every slot between that
      one and the name's own is marked as continuing the hash. */
  lemma {:induction false} NotBefore(slots: seq<Slot>, g: nat, j: nat, x: nat)
    requires Ordered(slots) && Reached(slots, g, x) && j < |slots| && InRange(slots, j, x) && x % 2 == 0
    ensures g <= j
    ensures forall i :: g < i <= j ==> slots[i].key / 2 * 2 == x
  {
    assert forall k :: 0 <= k < g ==> slots[k].key <= slots[g].key;
    forall i | g < i <= j
      ensures slots[i].key / 2 * 2 == x
    {
      assert slots[g + 1].key <= slots[i].key || i == g + 1;
      assert slots[i].key <= slots[j].key || i == j;
    }
  }

  // ---- one more slot ----

  function WithSlot(slots: seq<Slot>, g: nat, s: Slot): seq<Slot>
    requires g < |slots|
  {
    slots[..g + 1] + [s] + slots[g + 1..]
  }

  lemma {:induction false} SlotsInsert(es: seq<IdxEnt>, key: nat, p: nat, e: IdxEnt)
    requires p < |es|
    ensures Slots(es[..p + 1] + [e] + es[p + 1..], key) == WithSlot(Slots(es, key), p, Slot(e.hash, e.block))
  {
  }

  /** A new entry in the node over slot g adds one slot after g. */
  lemma {:induction false} ChunkInsert(cs: seq<seq<Slot>>, p: nat, q: nat, s: Slot)
    requires p < |cs| && q < |cs[p]|
    ensures var g := |FlatC(cs[..p])| + q;
            g < |FlatC(cs)| && FlatC(cs[p := WithSlot(cs[p], q, s)]) == WithSlot(FlatC(cs), g, s)
  {
    var c', cs' := WithSlot(cs[p], q, s), cs[p := WithSlot(cs[p], q, s)];
    FlatAround(cs, p);
    FlatAround(cs', p);
    assert cs'[..p] == cs[..p] && cs'[p + 1..] == cs[p + 1..];
    InsertMid(FlatC(cs[..p]), cs[p], FlatC(cs[p + 1..]), q, s);
  }

  lemma {:induction false} InsertMid(a: seq<Slot>, c: seq<Slot>, b: seq<Slot>, q: nat, s: Slot)
    requires q < |c|
    ensures a + WithSlot(c, q, s) + b == WithSlot(a + c + b, |a| + q, s)
  {
  }

  /** Cutting one node in two, with the key of the second half moved up, changes no slot. */
  lemma {:induction false} SlotsCut(es: seq<IdxEnt>, key: nat, c: nat)
    requires 0 < c < |es|
    ensures Slots(es[..c], key) + Slots(es[c..], es[c].hash) == Slots(es, key)
  {
  }

  lemma {:induction false} ChunkCut(cs: seq<seq<Slot>>, p: nat, a: seq<Slot>, b: seq<Slot>)
    requires p < |cs| && cs[p] == a + b
    ensures FlatC(cs[..p] + [a, b] + cs[p + 1..]) == FlatC(cs)
  {
    FlatAround(cs, p);
    FlatConcat(cs[..p] + [a, b], cs[p + 1..]);
    FlatConcat(cs[..p], [a, b]);
    assert [a, b] == [a] + [b];
    FlatConcat([a], [b]);
    FlatOne(a);
    FlatOne(b);
  }

  // ---- leaves changing ----

  lemma {:induction false} LiveAllSame(slots: seq<Slot>, leaves: map<nat, seq<DirRec>>, leaves': map<nat, seq<DirRec>>,
          e: DirEnt)
    requires forall j :: 0 <= j < |slots| ==>
               slots[j].leaf in leaves && slots[j].leaf in leaves' && leaves'[slots[j].leaf] == leaves[slots[j].leaf]
    ensures LiveAll(slots, leaves', e) == LiveAll(slots, leaves, e)
    decreases |slots|
  {
    if slots != [] {
      LiveAllSame(slots[..|slots| - 1], leaves, leaves', e);
    }
  }

  lemma {:induction false} LiveAllConcat(a: seq<Slot>, b: seq<Slot>, leaves: map<nat, seq<DirRec>>, e: DirEnt)
    ensures LiveAll(a + b, leaves, e) == LiveAll(a, leaves, e) + LiveAll(b, leaves, e)
    decreases |b|
  {
    if b == [] {
      assert a + b == a;
    } else {
      assert (a + b)[..|a + b| - 1] == a + b[..|b| - 1];
      LiveAllConcat(a, b[..|b| - 1], leaves, e);
    }
  }

  lemma {:induction false} LiveAllAt(slots: seq<Slot>, g: nat, leaves: map<nat, seq<DirRec>>, e: DirEnt)
    requires g < |slots| && slots[g].leaf in leaves
    ensures LiveAll(slots, leaves, e) ==
            LiveAll(slots[..g], leaves, e) + Live(leaves[slots[g].leaf], e) + LiveAll(slots[g + 1..], leaves, e)
  {
    assert slots == slots[..g + 1] + slots[g + 1..];
    LiveAllConcat(slots[..g + 1], slots[g + 1..], leaves, e);
    assert slots[..g + 1][..g] == slots[..g];
  }

  /** A scan of all leaves finds an entry exactly if some leaf has it. */
  lemma {:induction false} LiveAllIff(slots: seq<Slot>, leaves: map<nat, seq<DirRec>>, e: DirEnt)
    requires forall j :: 0 <= j < |slots| ==> slots[j].leaf in leaves
    ensures LiveAll(slots, leaves, e) > 0 <==> exists j :: 0 <= j < |slots| && Live(leaves[slots[j].leaf], e) > 0
    decreases |slots|
  {
    if slots != [] {
      var c := slots[..|slots| - 1];
      LiveAllIff(c, leaves, e);
      if j :| 0 <= j < |slots| && Live(leaves[slots[j].leaf], e) > 0 {
        if j < |c| {
          assert c[j] == slots[j];
        }
      }
      if j :| 0 <= j < |c| && Live(leaves[c[j].leaf], e) > 0 {
        assert slots[j] == c[j];
      }
    }
  }

  /** One leaf changed. */
  lemma {:induction false} LeafChanged(h: string -> nat, slots: seq<Slot>, leaves: map<nat, seq<DirRec>>, size: nat,
          g: nat, rs: seq<DirRec>)
    requires LeavesOk(h, slots, leaves, size) && g < |slots| && Tiled(rs, size) && InPlace(h, rs, slots, g)
    ensures LeavesOk(h, slots, leaves[slots[g].leaf := rs], size)
    ensures forall e ::
              LiveAll(slots, leaves[slots[g].leaf := rs], e) ==
              LiveAll(slots, leaves, e) - Live(leaves[slots[g].leaf], e) + Live(rs, e)
  {
    var leaves' := leaves[slots[g].leaf := rs];
    var before, after := slots[..g], slots[g + 1..];
    assert forall j :: 0 <= j < |before| ==> before[j] == slots[j];
    assert forall j :: 0 <= j < |after| ==> after[j] == slots[g + 1 + j];
    forall e
      ensures LiveAll(slots, leaves', e) == LiveAll(slots, leaves, e) - Live(leaves[slots[g].leaf], e) + Live(rs, e)
    {
      LiveAllAt(slots, g, leaves, e);
      LiveAllAt(slots, g, leaves', e);
      LiveAllSame(before, leaves, leaves', e);
      LiveAllSame(after, leaves, leaves', e);
    }
  }

  // ---- one leaf split in two ----

  /** The entries of leaf g are shared out to it and a new leaf behind it, which begins at key. */
  ghost predicate SplitOk(h: string -> nat, slots: seq<Slot>, g: nat, size: nat, rs: seq<DirRec>, low: seq<DirRec>,
          high: seq<DirRec>, key: nat)
    requires g < |slots|
  {
    && Tiled(low, size) && Tiled(high, size)
    && slots[g].key <= key && (g + 1 < |slots| ==> key <= slots[g + 1].key)
    && (forall i :: 0 <= i < |low| && low[i].inode != 0 ==> slots[g].key / 2 * 2 <= h(low[i].name) < key)
    && (forall i :: 0 <= i < |high| && high[i].inode != 0 ==>
          key / 2 * 2 <= h(high[i].name) && (g + 1 < |slots| ==> h(high[i].name) < slots[g + 1].key))
    && (forall e :: Live(rs, e) == Live(low, e) + Live(high, e))
  }

  lemma {:induction false} LeafSplit(h: string -> nat, slots: seq<Slot>, leaves: map<nat, seq<DirRec>>, size: nat,
          g: nat, low: seq<DirRec>, high: seq<DirRec>, key: nat, nb: nat)
    requires LeavesOk(h, slots, leaves, size) && Ordered(slots) && g < |slots| && nb !in leaves
    requires SplitOk(h, slots, g, size, leaves[slots[g].leaf], low, high, key)
    ensures var slots', leaves' := WithSlot(slots, g, Slot(key, nb)), leaves[slots[g].leaf := low][nb := high];
            LeavesOk(h, slots', leaves', size) && Ordered(slots')
    ensures forall e ::
              LiveAll(WithSlot(slots, g, Slot(key, nb)), leaves[slots[g].leaf := low][nb := high], e) ==
              LiveAll(slots, leaves, e)
  {
    hide Tiled, Live, LiveAll, InPlace, WithSlot;
    var slots', leaves' := WithSlot(slots, g, Slot(key, nb)), leaves[slots[g].leaf := low][nb := high];
    SplitPlaces(h, slots, leaves, size, g, low, high, key, nb);
    forall e
      ensures LiveAll(slots', leaves', e) == LiveAll(slots, leaves, e)
    {
      SplitLive(slots, leaves, g, low, high, key, nb, e);
    }
  }

  lemma {:induction false} SplitPlaces(h: string -> nat, slots: seq<Slot>, leaves: map<nat, seq<DirRec>>, size: nat,
          g: nat, low: seq<DirRec>, high: seq<DirRec>, key: nat, nb: nat)
    requires LeavesOk(h, slots, leaves, size) && Ordered(slots) && g < |slots| && nb !in leaves
    requires SplitOk(h, slots, g, size, leaves[slots[g].leaf], low, high, key)
    ensures var slots', leaves' := WithSlot(slots, g, Slot(key, nb)), leaves[slots[g].leaf := low][nb := high];
            LeavesOk(h, slots', leaves', size) && Ordered(slots')
  {
    hide Tiled, Live;
    var slots', leaves' := WithSlot(slots, g, Slot(key, nb)), leaves[slots[g].leaf := low][nb := high];
    forall j | 0 <= j < |slots'|
      ensures slots'[j].leaf in leaves' && Tiled(leaves'[slots'[j].leaf], size)
              && InPlace(h, leaves'[slots'[j].leaf], slots', j)
    {
      if j < g {
        assert slots'[j] == slots[j];
      } else if j > g + 1 {
        assert slots'[j] == slots[j - 1];
      }
    }
  }

  lemma {:induction false} SplitLive(slots: seq<Slot>, leaves: map<nat, seq<DirRec>>, g: nat, low: seq<DirRec>,
          high: seq<DirRec>, key: nat, nb: nat, e: DirEnt)
    requires (forall j :: 0 <= j < |slots| ==> slots[j].leaf in leaves)
             && (forall i, j :: 0 <= i < j < |slots| ==> slots[i].leaf != slots[j].leaf)
    requires g < |slots| && nb !in leaves && Live(leaves[slots[g].leaf], e) == Live(low, e) + Live(high, e)
    ensures LiveAll(WithSlot(slots, g, Slot(key, nb)), leaves[slots[g].leaf := low][nb := high], e) ==
            LiveAll(slots, leaves, e)
  {
    hide LiveAll, Live;
    var slots', leaves' := WithSlot(slots, g, Slot(key, nb)), leaves[slots[g].leaf := low][nb := high];
    var before, after := slots[..g], slots[g + 1..];
    assert forall j :: 0 <= j < |before| ==> before[j] == slots[j];
    assert forall j :: 0 <= j < |after| ==> after[j] == slots[g + 1 + j];
    LiveAllAt(slots, g, leaves, e);
    LiveAllSame(before, leaves, leaves', e);
    LiveAllSame(after, leaves, leaves', e);
    LiveAllAt(slots', g + 1, leaves', e);
    assert slots'[..g + 1] == slots[..g + 1] && slots'[g + 2..] == after;
    LiveAllAt(slots[..g + 1], g, leaves', e);
    assert slots[..g + 1][..g] == before && slots[..g + 1][g + 1..] == [];
    NoSlots(leaves', e);
  }

  lemma {:induction false} NoSlots(leaves: map<nat, seq<DirRec>>, e: DirEnt)
    ensures LiveAll([], leaves, e) == 0
  {
  }

  // ---- index nodes split ----

  /** Cutting the node below root entry p in two: no slot changes, and the two halves lie where
      the node did. */
  lemma {:induction false} NodeCut(root: seq<IdxEnt>, nodes: map<nat, seq<IdxEnt>>, p: nat, c: nat, nb: nat,
                                   root': seq<IdxEnt>, nodes': map<nat, seq<IdxEnt>>)
    requires p < |root| && (forall i :: 0 <= i < |root| ==> root[i].block in nodes) && nb !in nodes
    requires forall i, j :: 0 <= i < j < |root| ==> root[i].block != root[j].block
    requires var e := nodes[root[p].block]; 0 < c < |e|
    requires var e := nodes[root[p].block];
             && root' == root[..p + 1] + [IdxEnt(e[c].hash, nb)] + root[p + 1..]
             && nodes' == nodes[nb := e[c..]][root[p].block := e[..c]]
    ensures FlatC(Chunks(root', nodes')) == FlatC(Chunks(root, nodes))
    ensures |FlatC(Chunks(root', nodes')[..p])| == |FlatC(Chunks(root, nodes)[..p])|
    ensures |FlatC(Chunks(root', nodes')[..p + 1])| == |FlatC(Chunks(root, nodes)[..p])| + c
  {
    hide FlatC, Chunks, Slots;
    var e := nodes[root[p].block];
    var cs, cs' := Chunks(root, nodes), Chunks(root', nodes');
    var a, b := Slots(e[..c], KeyOf(root, p)), Slots(e[c..], e[c].hash);
    ChunksCut(root, nodes, p, c, nb, root', nodes');
    SlotsCut(e, KeyOf(root, p), c);
    ChunkCut(cs, p, a, b);
    assert cs'[..p] == cs[..p] && cs'[..p + 1] == cs[..p] + [a];
    FlatConcat(cs[..p], [a]);
    FlatOne(a);
  }

  lemma {:induction false} NodesCut(root: seq<IdxEnt>, nodes: map<nat, seq<IdxEnt>>, p: nat, c: nat, nb: nat,
                                    root': seq<IdxEnt>, nodes': map<nat, seq<IdxEnt>>)
    requires p < |root| && (forall i :: 0 <= i < |root| ==> root[i].block in nodes) && nb !in nodes
    requires forall i, j :: 0 <= i < j < |root| ==> root[i].block != root[j].block
    requires var e := nodes[root[p].block]; 0 < c < |e|
    requires var e := nodes[root[p].block];
             && root' == root[..p + 1] + [IdxEnt(e[c].hash, nb)] + root[p + 1..]
             && nodes' == nodes[nb := e[c..]][root[p].block := e[..c]]
    ensures forall i :: 0 <= i < |root'| ==> root'[i].block in nodes'
    ensures forall i, j :: 0 <= i < j < |root'| ==> root'[i].block != root'[j].block
    ensures forall b :: b in nodes' ==> b == nb || b in nodes
    ensures forall b :: b in nodes' && b != nb ==> 0 < |nodes'[b]| <= |nodes[b]| || nodes'[b] == nodes[b]
    ensures nb in nodes' && 0 < |nodes'[nb]| < |nodes[root[p].block]|
    ensures |nodes'[root'[p].block]| == c && nodes'[root'[p + 1].block] == nodes[root[p].block][c..]
  {
    forall i | 0 <= i < |root'|
      ensures root'[i].block == if i <= p then root[i].block else if i == p + 1 then nb else root[i - 1].block
    {
    }
  }

  lemma {:induction false} ChunksCut(root: seq<IdxEnt>, nodes: map<nat, seq<IdxEnt>>, p: nat, c: nat, nb: nat,
                                     root': seq<IdxEnt>, nodes': map<nat, seq<IdxEnt>>)
    requires p < |root| && (forall i :: 0 <= i < |root| ==> root[i].block in nodes) && nb !in nodes
    requires forall i, j :: 0 <= i < j < |root| ==> root[i].block != root[j].block
    requires var e := nodes[root[p].block]; 0 < c < |e|
    requires var e := nodes[root[p].block];
             && root' == root[..p + 1] + [IdxEnt(e[c].hash, nb)] + root[p + 1..]
             && nodes' == nodes[nb := e[c..]][root[p].block := e[..c]]
    ensures var e, cs := nodes[root[p].block], Chunks(root, nodes);
            && cs[p] == Slots(e, KeyOf(root, p))
            && Chunks(root', nodes') ==
               cs[..p] + [Slots(e[..c], KeyOf(root, p)), Slots(e[c..], e[c].hash)] + cs[p + 1..]
  {
    hide Slots;
    var e := nodes[root[p].block];
    var cs, cs' := Chunks(root, nodes), Chunks(root', nodes');
    var a, b := Slots(e[..c], KeyOf(root, p)), Slots(e[c..], e[c].hash);
    forall i | 0 <= i < |cs'|
      ensures cs'[i] == if i < p then cs[i] else if i == p then a else if i == p + 1 then b else cs[i - 1]
    {
      if i < p {
        assert root'[i] == root[i];
      } else if i > p + 1 {
        assert root'[i] == root[i - 1];
      }
    }
  }

  /** Moving the whole root one level down changes no slot. */
  lemma {:induction false} RootMoved(root: seq<IdxEnt>, nodes: map<nat, seq<IdxEnt>>, key: nat, nb: nat)
    requires root != []
    ensures FlatC(Chunks([IdxEnt(key, nb)], nodes[nb := root])) == Slots(root, 0)
    ensures |FlatC(Chunks([IdxEnt(key, nb)], nodes[nb := root])[..0])| == 0
  {
    var cs := Chunks([IdxEnt(key, nb)], nodes[nb := root]);
    assert cs == [Slots(root, 0)];
    FlatOne(Slots(root, 0));
    assert cs[..0] == [];
  }

  /** A new entry in the node below root entry p. */
  lemma {:induction false} NodeInsert(root: seq<IdxEnt>, nodes: map<nat, seq<IdxEnt>>, p: nat, q: nat, e: IdxEnt,
          nodes': map<nat, seq<IdxEnt>>)
    requires p < |root| && (forall i :: 0 <= i < |root| ==> root[i].block in nodes)
    requires forall i, j :: 0 <= i < j < |root| ==> root[i].block != root[j].block
    requires var es := nodes[root[p].block];
             q < |es| && nodes' == nodes[root[p].block := es[..q + 1] + [e] + es[q + 1..]]
    ensures var g := |FlatC(Chunks(root, nodes)[..p])| + q;
            g < |FlatC(Chunks(root, nodes))| &&
            FlatC(Chunks(root, nodes')) == WithSlot(FlatC(Chunks(root, nodes)), g, Slot(e.hash, e.block))
  {
    var es := nodes[root[p].block];
    var cs, cs' := Chunks(root, nodes), Chunks(root, nodes');
    SlotsInsert(es, KeyOf(root, p), q, e);
    forall i | 0 <= i < |cs'|
      ensures cs'[i] == if i == p then WithSlot(cs[p], q, Slot(e.hash, e.block)) else cs[i]
    {
    }
    assert cs' == cs[p := WithSlot(cs[p], q, Slot(e.hash, e.block))];
    ChunkInsert(cs, p, q, Slot(e.hash, e.block));
  }

  // ---- the halves of a split leaf ----

  /** The key of the new leaf: the hash it begins with, marked if the old leaf ends with it too. */
  function SplitKey(h: string -> nat, items: seq<DirRec>, mid: nat): nat
    requires 0 < mid < |items|
  {
    h(items[mid].name) + if h(items[mid].name) == h(items[mid - 1].name) then 1 else 0
  }

  /** Every item is a live record of the leaf. */
  lemma {:induction false} ItemInRange(h: string -> nat, slots: seq<Slot>, g: nat, rs: seq<DirRec>, items: seq<DirRec>,
          i: nat)
    requires g < |slots| && InPlace(h, rs, slots, g) && Tight(items) && SameEntries(rs, items) && i < |items|
    ensures InRange(slots, g, h(items[i].name))
  {
    var e := DirEnt(items[i].name, items[i].inode);
    LiveIff(items, e);
    LiveIff(rs, e);
    assert Holds(items[i], e);
  }

  lemma {:induction false} PartNames(items: seq<DirRec>, size: nat, p: seq<DirRec>, i: nat)
    requires items != [] && Total(items) <= size && p == Packed(items, size) && i < |p|
    ensures |p| == |items| && p[i].name == items[i].name
  {
  }

  lemma {:induction false} HalvesOk(h: string -> nat, slots: seq<Slot>, g: nat, size: nat, rs: seq<DirRec>,
          items: seq<DirRec>, mid: nat)
    requires g < |slots| && InPlace(h, rs, slots, g) && Tight(items) && SameEntries(rs, items) && HashSorted(h, items)
    requires (forall s :: h(s) % 2 == 0) && 0 < mid < |items| && size % 4 == 0
    requires Total(items[..mid]) <= size && Total(items[mid..]) <= size
    ensures SplitOk(h, slots, g, size, rs, Packed(items[..mid], size), Packed(items[mid..], size),
                SplitKey(h, items, mid))
  {
    hide Packed, Tiled, InPlace, Total, LiveSize, Live, HashSorted;
    var low, high := items[..mid], items[mid..];
    PackedOk(low, size);
    PackedOk(high, size);
    KeyBetween(h, slots, g, rs, items, mid);
    LowNames(h, slots, g, size, rs, items, mid);
    HighNames(h, slots, g, size, rs, items, mid);
    var pl, ph := Packed(low, size), Packed(high, size);
    forall e
      ensures Live(rs, e) == Live(pl, e) + Live(ph, e)
    {
      assert items == low + high;
      LiveConcat(low, high, e);
    }
  }

  lemma {:induction false} KeyBetween(h: string -> nat, slots: seq<Slot>, g: nat, rs: seq<DirRec>, items: seq<DirRec>,
          mid: nat)
    requires g < |slots| && InPlace(h, rs, slots, g) && Tight(items) && SameEntries(rs, items) && HashSorted(h, items)
    requires (forall s :: h(s) % 2 == 0) && 0 < mid < |items|
    ensures var key := SplitKey(h, items, mid); slots[g].key <= key && (g + 1 < |slots| ==> key <= slots[g + 1].key)
  {
    ItemInRange(h, slots, g, rs, items, mid);
    ItemInRange(h, slots, g, rs, items, mid - 1);
    assert h(items[mid - 1].name) <= h(items[mid].name);
    assert h(items[mid].name) % 2 == 0;
  }

  lemma {:induction false} LowNames(h: string -> nat, slots: seq<Slot>, g: nat, size: nat, rs: seq<DirRec>,
          items: seq<DirRec>, mid: nat)
    requires g < |slots| && InPlace(h, rs, slots, g) && Tight(items) && SameEntries(rs, items) && HashSorted(h, items)
    requires (forall s :: h(s) % 2 == 0) && 0 < mid < |items| && Total(items[..mid]) <= size
    ensures var p := Packed(items[..mid], size);
            forall i :: 0 <= i < |p| && p[i].inode != 0 ==>
              slots[g].key / 2 * 2 <= h(p[i].name) < SplitKey(h, items, mid)
  {
    hide Packed, InPlace, Total, LiveSize, Live;
    var low := items[..mid];
    var p := Packed(low, size);
    forall i | 0 <= i < |p| && p[i].inode != 0
      ensures slots[g].key / 2 * 2 <= h(p[i].name) < SplitKey(h, items, mid)
    {
      PartNames(low, size, p, i);
      ItemInRange(h, slots, g, rs, items, i);
      assert low[i] == items[i];
      assert i == mid - 1 || h(items[i].name) <= h(items[mid - 1].name);
      assert h(items[mid - 1].name) <= h(items[mid].name);
    }
  }

  lemma {:induction false} HighNames(h: string -> nat, slots: seq<Slot>, g: nat, size: nat, rs: seq<DirRec>,
          items: seq<DirRec>, mid: nat)
    requires g < |slots| && InPlace(h, rs, slots, g) && Tight(items) && SameEntries(rs, items) && HashSorted(h, items)
    requires (forall s :: h(s) % 2 == 0) && 0 < mid < |items| && Total(items[mid..]) <= size
    ensures var p := Packed(items[mid..], size);
            forall i :: 0 <= i < |p| && p[i].inode != 0 ==>
              SplitKey(h, items, mid) / 2 * 2 <= h(p[i].name) && (g + 1 < |slots| ==> h(p[i].name) < slots[g + 1].key)
  {
    hide Packed, InPlace, Total, LiveSize, Live;
    var high := items[mid..];
    var p := Packed(high, size);
    assert h(items[mid].name) % 2 == 0;
    forall i | 0 <= i < |p| && p[i].inode != 0
      ensures SplitKey(h, items, mid) / 2 * 2 <= h(p[i].name) && (g + 1 < |slots| ==> h(p[i].name) < slots[g + 1].key)
    {
      PartNames(high, size, p, i);
      ItemInRange(h, slots, g, rs, items, mid + i);
      assert high[i] == items[mid + i];
      assert i == 0 || h(items[mid].name) <= h(items[mid + i].name);
    }
  }

  /** The block has room for an entry exactly if it fits beside these records. */
  ghost predicate RoomBeside(t: seq<DirRec>, part: seq<DirRec>, size: nat) {
    forall need: nat :: need > 0 ==> (RoomIn(t, need) <==> Total(part) + need <= size)
  }

  lemma {:induction false} RoomIs(t: seq<DirRec>, part: seq<DirRec>, size: nat, name: string)
    requires RoomBeside(t, part, size)
    ensures RoomIn(t, Required(name)) <==> Total(part) + Required(name) <= size
  {
    assert Required(name) > 0;
  }

  lemma {:induction false} PackedOne(items: seq<DirRec>, size: nat)
    requires Tight(items) && items != [] && Total(items) <= size && size % 4 == 0
    ensures RoomBeside(Packed(items, size), items, size)
  {
    TightSize(items);
    hide Packed, LiveSize, Total;
    var p := Packed(items, size);
    forall need: nat | need > 0
      ensures RoomIn(p, need) <==> Total(items) + need <= size
    {
      PackedRoom(items, size, need);
    }
  }

  lemma {:induction false} LiveFits(rs: seq<DirRec>, size: nat)
    requires Tiled(rs, size)
    ensures LiveSize(rs) <= size
  {
    LiveBelow(rs);
  }

  lemma {:induction false} LiveBelow(rs: seq<DirRec>)
    requires forall i :: 0 <= i < |rs| ==> RecOk(rs[i])
    ensures LiveSize(rs) <= Total(rs)
    decreases |rs|
  {
    if rs != [] {
      LiveBelow(rs[..|rs| - 1]);
    }
  }

  /** The live records of a leaf in the order of their hashes, and the place to cut them. */
  ghost predicate Halved(h: string -> nat, rs: seq<DirRec>, size: nat, items: seq<DirRec>, mid: nat) {
    Tight(items) && SameEntries(rs, items) && HashSorted(h, items) && Total(items) <= size && IsMid(items, size, mid)
        && 0 < mid
  }

  /** The part an entry with hash x belongs to. */
  function Part(h: string -> nat, items: seq<DirRec>, mid: nat, x: nat): seq<DirRec>
    requires 0 < mid < |items|
  {
    if x >= SplitKey(h, items, mid) then items[mid..] else items[..mid]
  }

  /** Shares the entries of a leaf out to two blocks: the work of ext4_dir_dx_split_data. */
  method Divide(h: string -> nat, rs: seq<DirRec>, size: nat, ghost slots: seq<Slot>, ghost g: nat)
    returns (low: seq<DirRec>, high: seq<DirRec>, key: nat, ghost items: seq<DirRec>, ghost mid: nat)
    requires Tiled(rs, size) && LiveSize(rs) > size / 2 && 1024 <= size && size % 8 == 0 && forall s :: h(s) % 2 == 0
    requires g < |slots| && InPlace(h, rs, slots, g)
    ensures SplitOk(h, slots, g, size, rs, low, high, key)
    ensures Halved(h, rs, size, items, mid) && 0 < mid < |items| && key == SplitKey(h, items, mid)
    ensures RoomBeside(low, items[..mid], size) && RoomBeside(high, items[mid..], size)
    ensures NoGaps(low) && NoGaps(high)
  {
    hide NoGaps, Packed, InPlace, Total, LiveSize, Live, HashSorted, RoomBeside, Tight, SplitOk, IsMid, SameEntries;
    var items0 := LoadEntries(rs, size);
    var sort := Sort(h, items0);
    SortedItems(rs, items0, sort, size);
    var m := FindMid(sort, size);
    items, mid := sort, m;
    HalvesSize(sort, size, m);
    var newHash := h(sort[m].name);
    var continued := 0;
    if newHash == h(sort[m - 1].name) {
      continued := 1;
    }
    low := Pack(sort[..m], size);
    high := Pack(sort[m..], size);
    key := newHash + continued;
    HalvesOk(h, slots, g, size, rs, sort, m);
    PackedGaps(sort[..m], size);
    PackedGaps(sort[m..], size);
  }

  lemma {:induction false} PackedGaps(items: seq<DirRec>, size: nat)
    requires Tight(items) && items != [] && Total(items) <= size
    ensures NoGaps(Packed(items, size))
  {
  }

  /** In no leaf freed space lies in pieces. */
  predicate Compact(leaves: map<nat, seq<DirRec>>) {
    forall b :: b in leaves ==> NoGaps(leaves[b])
  }

  lemma {:induction false} CompactWith(leaves: map<nat, seq<DirRec>>, leaf: nat, low: seq<DirRec>, nb: nat,
          high: seq<DirRec>)
    requires NoGaps(low) && NoGaps(high)
    ensures Compact(leaves) ==> Compact(leaves[leaf := low][nb := high])
  {
    hide NoGaps;
  }

  lemma {:induction false} HalvesSize(items: seq<DirRec>, size: nat, mid: nat)
    requires Tight(items) && IsMid(items, size, mid) && 0 < mid && size % 4 == 0 && Total(items) <= size
    ensures mid < |items| && Total(items[..mid]) <= size && Total(items[mid..]) <= size
    ensures Tight(items[..mid]) && Tight(items[mid..]) && items[..mid] != [] && items[mid..] != []
    ensures RoomBeside(Packed(items[..mid], size), items[..mid], size)
    ensures RoomBeside(Packed(items[mid..], size), items[mid..], size)
  {
    hide Packed, RoomBeside, Total, LiveSize, Tight, IsMid;
    MidParts(items, size, mid);
    PackedOne(items[..mid], size);
    PackedOne(items[mid..], size);
  }

  lemma {:induction false} SortedItems(rs: seq<DirRec>, items0: seq<DirRec>, items: seq<DirRec>, size: nat)
    requires SameEntries(rs, items0) && SameEntries(items0, items) && Tight(items) && Tiled(rs, size)
    ensures SameEntries(rs, items) && Total(items) == LiveSize(rs) <= size
  {
    TightSize(items);
    LiveFits(rs, size);
  }

  /** How the parts compare: the lower one takes at most half a block, and the record in the middle
      would have taken it beyond. */
  lemma {:induction false} MidParts(items: seq<DirRec>, size: nat, mid: nat)
    requires Tight(items) && IsMid(items, size, mid) && 0 < mid && Total(items) <= size
    ensures mid < |items| && Tight(items[..mid]) && Tight(items[mid..])
    ensures Total(items[..mid]) + Total(items[mid..]) == Total(items)
    ensures Total(items[..mid]) <= size / 2 < Total(items[..mid]) + items[mid].recLen
    ensures items[mid].recLen == Required(items[mid].name) <= 264
  {
    assert items == items[..mid] + items[mid..];
    Concat(items[..mid], items[mid..]);
    assert items[mid].recLen == Required(items[mid].name) && RecOk(items[mid]);
    assert Required(items[mid].name) <= 264;
  }

  /** A new entry whose hash belongs to the leaf. */
  lemma {:induction false} AddedInPlace(h: string -> nat, slots: seq<Slot>, g: nat, rs: seq<DirRec>, rs': seq<DirRec>,
          e: DirEnt)
    requires g < |slots| && InPlace(h, rs, slots, g) && Added(rs, rs', e) && InRange(slots, g, h(e.name))
    ensures InPlace(h, rs', slots, g)
  {
    forall i | 0 <= i < |rs'| && rs'[i].inode != 0
      ensures InRange(slots, g, h(rs'[i].name))
    {
      var x := DirEnt(rs'[i].name, rs'[i].inode);
      assert Holds(rs'[i], x);
      LiveIff(rs', x);
      LiveIff(rs, x);
    }
  }

  /** Taking an entry away leaves the others in place. */
  lemma {:induction false} RemovedInPlace(h: string -> nat, slots: seq<Slot>, g: nat, rs: seq<DirRec>, rs': seq<DirRec>,
          e: DirEnt)
    requires g < |slots| && InPlace(h, rs, slots, g) && Added(rs', rs, e)
    ensures InPlace(h, rs', slots, g)
  {
    forall i | 0 <= i < |rs'| && rs'[i].inode != 0
      ensures InRange(slots, g, h(rs'[i].name))
    {
      var x := DirEnt(rs'[i].name, rs'[i].inode);
      assert Holds(rs'[i], x);
      LiveIff(rs', x);
      LiveIff(rs, x);
    }
  }

  /** If an entry does not fit after the split it belongs to the upper part, and it and the record in
      the middle take more than half a block together. Both have at most 264 bytes, so that this
      takes a block of 1024 bytes and a name of at least 245 characters. */
  lemma {:induction false} NoFit(h: string -> nat, rs: seq<DirRec>, size: nat, items: seq<DirRec>, mid: nat, x: nat,
          name: string)
    requires Halved(h, rs, size, items, mid) && mid < |items| && size % 8 == 0 && 1024 <= size && |name| <= 255
    requires Total(Part(h, items, mid, x)) + Required(name) > size
    ensures x >= SplitKey(h, items, mid) && size / 2 + 8 <= Required(name) + items[mid].recLen
    ensures size <= 1040 && size / 2 <= Required(name) + 256
  {
    hide SameEntries, HashSorted;
    MidParts(items, size, mid);
    TightAligned(items[..mid]);
    TightAligned(items[mid..]);
    hide Total, IsMid, HashSorted, SameEntries, Required;
    NameSize(name);
    NameSize(items[mid].name);
    TooMuch(size, Total(items[..mid]), Total(items[mid..]), items[mid].recLen, Required(name),
            x < SplitKey(h, items, mid));
  }

  lemma {:induction false} NameSize(name: string)
    ensures Required(name) % 4 == 0 && |name| + 8 <= Required(name) && (|name| <= 255 ==> Required(name) <= 264)
  {
  }

  lemma {:induction false} TooMuch(size: nat, low: nat, high: nat, rec: nat, need: nat, lower: bool)
    requires size % 8 == 0 && low % 4 == 0 && high % 4 == 0 && rec % 4 == 0 && need % 4 == 0 && rec <= 264
             && need <= 264 && 1024 <= size
    requires low + high <= size && low <= size / 2 < low + rec && (if lower then low else high) + need > size
    ensures !lower && size / 2 + 8 <= need + rec
  {
  }

  /** A full leaf of 1024 bytes is cut into 252 and 772. For a name of 248 characters or more that
      belongs to the upper part there is no room even then. */
  lemma {:induction false} LossExample(name: string)
    requires 248 <= |name| <= 255 && name[0] == 'z'
    ensures var items := [Full('a', 244), Full('b', 255), Full('c', 255), Full('d', 236)];
            && Tiled(items, 1024) && !RoomIn(items, Required(name)) && LiveSize(items) > 1024 / 2
            && Halved(ByFirst, items, 1024, items, 1) && Total(items[..1]) == 252 && Total(items[1..]) == 772
            && Total(Part(ByFirst, items, 1, ByFirst(name))) + Required(name) > 1024
  {
    var a, b, c, d := Full('a', 244), Full('b', 255), Full('c', 255), Full('d', 236);
    var items := [a, b, c, d];
    FullIs('a', 244);
    FullIs('b', 255);
    FullIs('c', 255);
    FullIs('d', 236);
    NameSize(name);
    FullTotals(a, b, c, d);
    FullHalved();
    hide Total, LiveSize, Live, Size, Full, Required, RecOk, HasRoom, Halved;
    assert items[..1] == [a] && items[1..] == [b, c, d];
    assert ByFirst(name) == 244 && SplitKey(ByFirst, items, 1) == 196;
  }

  /** A hash that puts names in the order of their first characters. */
  function ByFirst(s: string): nat {
    if s == "" then 0 else 2 * (s[0] as nat)
  }

  /** A record of just the size its name takes. */
  function Full(c: char, n: nat): DirRec {
    DirRec(1, seq(n, _ => c), Required(seq(n, _ => c)), false)
  }

  lemma {:induction false} FullIs(c: char, n: nat)
    requires 0 < n <= 255
    ensures var r := Full(c, n);
            && RecOk(r) && r.inode != 0 && r.recLen == Required(r.name) == Size(r) == (n + 11) / 4 * 4
            && |r.name| == n && r.name[0] == c && forall need: nat :: need > 0 ==> !HasRoom(r, need)
  {
  }

  lemma {:induction false} FullHalved()
    ensures var items := [Full('a', 244), Full('b', 255), Full('c', 255), Full('d', 236)];
            Halved(ByFirst, items, 1024, items, 1)
  {
    var a, b, c, d := Full('a', 244), Full('b', 255), Full('c', 255), Full('d', 236);
    var items := [a, b, c, d];
    FullIs('a', 244);
    FullIs('b', 255);
    FullIs('c', 255);
    FullIs('d', 236);
    FullTotals(a, b, c, d);
    hide Total, LiveSize, Live, Size, Full, Required, RecOk, HasRoom;
    assert items[..1] == [a];
    assert ByFirst(a.name) == 194 && ByFirst(b.name) == 196 && ByFirst(c.name) == 198 && ByFirst(d.name) == 200;
  }

  lemma {:induction false} FullTotals(a: DirRec, b: DirRec, c: DirRec, d: DirRec)
    ensures Total([a]) == a.recLen && Total([b, c, d]) == b.recLen + c.recLen + d.recLen
    ensures Total([a, b, c, d]) == a.recLen + b.recLen + c.recLen + d.recLen
    ensures LiveSize([a, b, c, d]) == Size(a) + Size(b) + Size(c) + Size(d)
  {
    Around([a], 0);
    Around([a, b, c, d], 3);
    Around([a, b, c], 2);
    Around([a, b], 1);
    Around([b, c, d], 2);
    Around([b, c], 1);
    Around([b], 0);
    assert [a, b, c, d][..3] == [a, b, c] && [a, b, c][..2] == [a, b] && [a, b][..1] == [a];
    assert [b, c, d][..2] == [b, c] && [b, c][..1] == [b] && [b][..0] == [];
  }

  lemma {:induction false} ReachedRange(slots: seq<Slot>, g: nat, x: nat)
    requires Reached(slots, g, x) && slots[0].key == 0
    ensures InRange(slots, g, x)
  {
  }

  /** Which of the two leaves the hash belongs to after the split. */
  lemma {:induction false} TargetRange(slots: seq<Slot>, g: nat, x: nat, key: nat, nb: nat)
    requires Reached(slots, g, x) && slots[0].key == 0
    ensures var s := WithSlot(slots, g, Slot(key, nb));
            InRange(s, if x >= key then g + 1 else g, x) && s[g] == slots[g] && s[g + 1] == Slot(key, nb)
  {
    if g + 1 < |slots| {
      assert WithSlot(slots, g, Slot(key, nb))[g + 2] == slots[g + 1];
    }
  }
}
