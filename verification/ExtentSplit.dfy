/** Cutting the nodes on a path in two, from the leaf upwards. */
module ExtentSplit {
  import opened ExtentEntries
  import opened ExtentTree
  import opened ExtentPath
  import opened ExtentHeld

  /** lt takes the place of sub and holds front; rt holds back, which starts at block ins. */
  ghost predicate Halves(sub: Tree, lt: Tree, rt: Tree, ins: nat, front: seq<Entry>, back: seq<Entry>) {
    && lt.blk == sub.blk
    && Shape(lt) && Shape(rt)
    && Flat(sub) != [] && Flat(lt) != [] && Flat(rt) != []
    && Flat(lt)[0] == Flat(sub)[0]
    && IsExtent(Flat(rt)[0]) && Flat(rt)[0].first == ins
    && Flat(lt) == front && Flat(rt) == back
  }

  /** The node cut after its child p, whose subtree was cut into lt and rt. */
  ghost function LeftOf(sub: Tree, p: nat, lt: Tree): Tree
    requires sub.Inner? && p < |sub.kids| == |sub.es|
  {
    Inner(sub.blk, sub.es[..p + 1], sub.kids[..p] + [lt])
  }

  ghost function RightOf(sub: Tree, p: nat, rt: Tree, blk: nat, ins: nat): Tree
    requires sub.Inner? && p < |sub.kids| == |sub.es|
  {
    Inner(blk, [Index(ins, rt.blk)] + sub.es[p + 1..], [rt] + sub.kids[p + 1..])
  }

  /** The node with both halves of its child p. */
  ghost function JoinOf(sub: Tree, p: nat, lt: Tree, rt: Tree, ins: nat): Tree
    requires sub.Inner? && p < |sub.kids| == |sub.es|
  {
    Inner(sub.blk, sub.es[..p + 1] + [Index(ins, rt.blk)] + sub.es[p + 1..],
          sub.kids[..p] + ([lt, rt] + sub.kids[p + 1..]))
  }

  lemma {:induction false} LeftShape(sub: Tree, p: nat, lt: Tree)
    requires Shape(sub) && sub.Inner? && p < |sub.kids|
    requires Shape(lt) && lt.blk == sub.kids[p].blk && Flat(lt) != [] && Flat(lt)[0] == Flat(sub.kids[p])[0]
    ensures Shape(LeftOf(sub, p, lt))
    ensures Flat(LeftOf(sub, p, lt)) == FlatAll(sub.kids[..p]) + Flat(lt)
  {
    FlatAllConcat(sub.kids[..p], [lt]);
    assert FlatAll([lt]) == Flat(lt) + FlatAll([]) == Flat(lt);
    var t := LeftOf(sub, p, lt);
    forall i | 0 <= i < |t.kids|
      ensures t.es[i].Index? && t.es[i].leaf == t.kids[i].blk && Shape(t.kids[i])
      ensures Flat(t.kids[i]) != [] && KeyOk(i, t.es[i].first, Flat(t.kids[i])[0])
    {
      assert KeyOk(i, sub.es[i].first, Flat(sub.kids[i])[0]);
    }
  }

  lemma {:induction false} RightShape(sub: Tree, p: nat, rt: Tree, blk: nat, ins: nat)
    requires Shape(sub) && sub.Inner? && p < |sub.kids|
    requires Shape(rt) && Flat(rt) != [] && IsExtent(Flat(rt)[0]) && Flat(rt)[0].first == ins
    ensures Shape(RightOf(sub, p, rt, blk, ins))
    ensures Flat(RightOf(sub, p, rt, blk, ins)) == Flat(rt) + FlatAll(sub.kids[p + 1..])
  {
    var t := RightOf(sub, p, rt, blk, ins);
    assert t.kids[1..] == sub.kids[p + 1..];
    forall i | 0 <= i < |t.kids|
      ensures t.es[i].Index? && t.es[i].leaf == t.kids[i].blk && Shape(t.kids[i])
      ensures Flat(t.kids[i]) != [] && KeyOk(i, t.es[i].first, Flat(t.kids[i])[0])
    {
      if i > 0 {
        assert KeyOk(p + i, sub.es[p + i].first, Flat(sub.kids[p + i])[0]);
      }
    }
  }

  lemma {:induction false} JoinShape(sub: Tree, p: nat, lt: Tree, rt: Tree, ins: nat)
    requires Shape(sub) && sub.Inner? && p < |sub.kids|
    requires Shape(lt) && lt.blk == sub.kids[p].blk && Flat(lt) != [] && Flat(lt)[0] == Flat(sub.kids[p])[0]
    requires Shape(rt) && Flat(rt) != [] && IsExtent(Flat(rt)[0]) && Flat(rt)[0].first == ins
    ensures Shape(JoinOf(sub, p, lt, rt, ins))
  {
    var t := JoinOf(sub, p, lt, rt, ins);
    forall i | 0 <= i < |t.kids|
      ensures t.es[i].Index? && t.es[i].leaf == t.kids[i].blk && Shape(t.kids[i])
      ensures Flat(t.kids[i]) != [] && KeyOk(i, t.es[i].first, Flat(t.kids[i])[0])
    {
      if i <= p {
        assert KeyOk(i, sub.es[i].first, Flat(sub.kids[i])[0]);
      } else if i > p + 1 {
        assert KeyOk(i - 1, sub.es[i - 1].first, Flat(sub.kids[i - 1])[0]);
      }
    }
  }

  lemma {:induction false} JoinFlat(sub: Tree, p: nat, lt: Tree, rt: Tree, ins: nat)
    requires sub.Inner? && p < |sub.kids| == |sub.es|
    ensures Flat(JoinOf(sub, p, lt, rt, ins)) ==
            FlatAll(sub.kids[..p]) + ((Flat(lt) + Flat(rt)) + FlatAll(sub.kids[p + 1..]))
  {
    var tail := [lt, rt] + sub.kids[p + 1..];
    FlatAllConcat(sub.kids[..p], tail);
    assert tail[1..] == [rt] + sub.kids[p + 1..];
    assert tail[1..][1..] == sub.kids[p + 1..];
    SeqAssoc(Flat(lt), Flat(rt), FlatAll(sub.kids[p + 1..]));
  }

  lemma {:induction false} HalvesStep(sub: Tree, p: nat, lt: Tree, rt: Tree, blk: nat, ins: nat,
                                      front: seq<Entry>, back: seq<Entry>)
    requires Shape(sub) && sub.Inner? && p < |sub.kids|
    requires Halves(sub.kids[p], lt, rt, ins, front, back)
    ensures Halves(sub, LeftOf(sub, p, lt), RightOf(sub, p, rt, blk, ins), ins,
                   FlatAll(sub.kids[..p]) + front, back + FlatAll(sub.kids[p + 1..]))
  {
    LeftShape(sub, p, lt);
    RightShape(sub, p, rt, blk, ins);
    FlatAllAt(sub.kids, p);
    SameFirst(FlatAll(sub.kids[..p]), Flat(lt), Flat(sub.kids[p]), FlatAll(sub.kids[p + 1..]));
  }

  lemma {:induction false} SameFirst(a: seq<Entry>, b: seq<Entry>, c: seq<Entry>, d: seq<Entry>)
    requires b != [] && c != [] && b[0] == c[0]
    ensures (a + b)[0] == (a + (c + d))[0]
  {
  }

  /** The blocks of the two halves: those of sub and the newly allocated ones. */
  ghost predicate Shared(sub: Tree, lt: Tree, rt: Tree, news: seq<nat>) {
    && (forall b :: b in news ==> Count(lt, b) == 0 && Count(rt, b) == 1)
    && (forall b :: b !in news ==> Count(lt, b) + Count(rt, b) == Count(sub, b))
  }

  lemma {:induction false} CountOne(t: Tree, b: nat)
    ensures CountAll([t], b) == Count(t, b)
  {
    assert [t][1..] == [];
  }

  lemma {:induction false} SplitCount(sub: Tree, p: nat, lt: Tree, rt: Tree, blk: nat, ins: nat, b: nat)
    requires sub.Inner? && p < |sub.kids| == |sub.es|
    ensures Count(LeftOf(sub, p, lt), b) == (if b == sub.blk then 1 else 0) + CountAll(sub.kids[..p], b) + Count(lt, b)
    ensures Count(RightOf(sub, p, rt, blk, ins), b) ==
            (if b == blk then 1 else 0) + Count(rt, b) + CountAll(sub.kids[p + 1..], b)
    ensures Count(JoinOf(sub, p, lt, rt, ins), b) ==
            (if b == sub.blk then 1 else 0) + CountAll(sub.kids[..p], b) + Count(lt, b) + Count(rt, b)
                + CountAll(sub.kids[p + 1..], b)
    ensures Count(sub, b) ==
            (if b == sub.blk then 1 else 0) + CountAll(sub.kids[..p], b) + Count(sub.kids[p], b)
                + CountAll(sub.kids[p + 1..], b)
  {
    CountAllConcat(sub.kids[..p], [lt], b);
    CountOne(lt, b);
    CountAllConcat([rt], sub.kids[p + 1..], b);
    CountOne(rt, b);
    CountAllConcat(sub.kids[..p], [lt, rt] + sub.kids[p + 1..], b);
    CountAllConcat([lt, rt], sub.kids[p + 1..], b);
    CountAllConcat([lt], [rt], b);
    assert [lt] + [rt] == [lt, rt];
    CountAllAt(sub.kids, p, b);
  }

  lemma {:induction false} SharedStep(sub: Tree, p: nat, lt: Tree, rt: Tree, blk: nat, ins: nat, news: seq<nat>)
    requires sub.Inner? && p < |sub.kids| == |sub.es|
    requires Shared(sub.kids[p], lt, rt, news)
    requires blk !in news && Count(sub, blk) == 0
    requires forall b :: b in news ==> Count(sub, b) == 0
    ensures Shared(sub, LeftOf(sub, p, lt), RightOf(sub, p, rt, blk, ins), news + [blk])
  {
    forall b
      ensures b in news + [blk] ==> Count(LeftOf(sub, p, lt), b) == 0 && Count(RightOf(sub, p, rt, blk, ins), b) == 1
      ensures b !in news + [blk] ==>
                Count(LeftOf(sub, p, lt), b) + Count(RightOf(sub, p, rt, blk, ins), b) == Count(sub, b)
    {
      SplitCount(sub, p, lt, rt, blk, ins, b);
    }
  }

  /** The children other than p are stored as before when only path blocks were rewritten. */
  lemma {:induction false} KidsKept(m0: map<nat, Node>, m: map<nat, Node>, sub: Tree, h: nat, cap: nat, p: nat, q: nat)
    requires Stored(m0, sub, h, cap) && Distinct(sub) && sub.Inner? && p < |sub.kids| && q < |sub.kids| && p != q
    requires forall b :: b in m0 && Count(sub, b) > 0 && b != sub.blk && Count(sub.kids[p], b) == 0 ==>
               b in m && m[b] == m0[b]
    ensures Stored(m, sub.kids[q], h - 1, cap)
  {
    forall b | Count(sub.kids[q], b) > 0 && b in m0
      ensures b in m && m[b] == m0[b]
    {
      TwoKids(sub, p, q, b);
      assert Count(sub, b) <= 1;
    }
    StoredFrame(m0, m, sub.kids[q], h - 1, cap);
  }

  /** Both halves of a node are stored once their own blocks are written. */
  lemma {:induction false} SplitStored(m0: map<nat, Node>, m: map<nat, Node>, sub: Tree, h: nat, cap: nat, p: nat,
                                       lt: Tree, rt: Tree, blk: nat, ins: nat)
    requires Stored(m0, sub, h, cap) && Shape(sub) && Distinct(sub) && sub.Inner? && p < |sub.kids|
    requires forall b :: b in m0 && Count(sub, b) > 0 && b != sub.blk && Count(sub.kids[p], b) == 0 ==>
               b in m && m[b] == m0[b]
    requires Stored(m, lt, h - 1, cap) && Stored(m, rt, h - 1, cap)
    requires sub.blk != 0 && blk != 0 && |sub.es| <= cap
    requires sub.blk in m && m[sub.blk] == Node(sub.es[..p + 1], cap, h)
    requires blk in m && m[blk] == Node([Index(ins, rt.blk)] + sub.es[p + 1..], cap, h)
    ensures Stored(m, LeftOf(sub, p, lt), h, cap)
    ensures Stored(m, RightOf(sub, p, rt, blk, ins), h, cap)
  {
    var l, r := LeftOf(sub, p, lt), RightOf(sub, p, rt, blk, ins);
    forall i | 0 <= i < |l.kids|
      ensures Stored(m, l.kids[i], h - 1, cap)
    {
      if i < p {
        KidsKept(m0, m, sub, h, cap, p, i);
      }
    }
    forall i | 0 <= i < |r.kids|
      ensures Stored(m, r.kids[i], h - 1, cap)
    {
      if i > 0 {
        KidsKept(m0, m, sub, h, cap, p, p + i);
      }
    }
  }

  lemma {:induction false} JoinStored(m0: map<nat, Node>, m: map<nat, Node>, sub: Tree, h: nat, cap: nat, p: nat,
                                      lt: Tree, rt: Tree, ins: nat)
    requires Stored(m0, sub, h, cap) && Shape(sub) && Distinct(sub) && sub.Inner? && p < |sub.kids|
    requires forall b :: b in m0 && Count(sub, b) > 0 && b != sub.blk && Count(sub.kids[p], b) == 0 ==>
               b in m && m[b] == m0[b]
    requires Stored(m, lt, h - 1, cap) && Stored(m, rt, h - 1, cap)
    requires |sub.es| < MaxOf(sub.blk, cap)
    requires sub.blk in m &&
             m[sub.blk] == Node(sub.es[..p + 1] + [Index(ins, rt.blk)] + sub.es[p + 1..], MaxOf(sub.blk, cap), h)
    ensures Stored(m, JoinOf(sub, p, lt, rt, ins), h, cap)
  {
    var t := JoinOf(sub, p, lt, rt, ins);
    forall i | 0 <= i < |t.kids|
      ensures Stored(m, t.kids[i], h - 1, cap)
    {
      if i < p {
        KidsKept(m0, m, sub, h, cap, p, i);
      } else if i > p + 1 {
        KidsKept(m0, m, sub, h, cap, p, i - 1);
      }
    }
  }
}
