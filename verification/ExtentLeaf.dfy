/** What inserting one extent does to the run of extents of a leaf, and to the whole map. */
module ExtentLeaf {
  import opened ExtentEntries
  import opened ExtentPath

  /** ex2 can be glued on after ex1: ext4_ext_can_append on written extents. */
  predicate CanAppend(ex1: Entry, ex2: Entry) {
    && ex1.Extent? && ex2.Extent?
    && ex1.start + ex1.len == ex2.start
    && ex1.len + ex2.len <= MAX_LEN
    && ex1.first + ex1.len == ex2.first
  }

  /** ex2 can be glued on before ex1: ext4_ext_can_prepend on written extents. */
  predicate CanPrepend(ex1: Entry, ex2: Entry) {
    && ex1.Extent? && ex2.Extent?
    && ex2.start + ex2.len == ex1.start
    && ex1.len + ex2.len <= MAX_LEN
    && ex2.first + ex2.len == ex1.first
  }

  /** The branches of ext4_ext_insert_leaf. */
  datatype Action = Append | Prepend | Split | Add(at: nat)

  function ActionFor(es: seq<Entry>, cur: int, max: nat, x: Entry, noCombine: bool): Action
    requires -1 <= cur < |es|
  {
    if cur >= 0 && !noCombine && CanAppend(es[cur], x) then Append
    else if cur >= 0 && !noCombine && CanPrepend(es[cur], x) then Prepend
    else if |es| == max then Split
    else if cur < 0 then Add(0)
    else if x.first > es[cur].first then Add(cur + 1)
    else Add(cur)
  }

  /** The leaf's extents after the branch was taken. The prepend branch keeps the old start. */
  function After(es: seq<Entry>, cur: int, x: Entry, a: Action): seq<Entry>
    requires -1 <= cur < |es|
    requires x.Extent? && Extents(es)
    requires (a.Append? || a.Prepend?) ==> cur >= 0
    requires a.Add? ==> a.at <= |es|
  {
    match a
    case Append => es[cur := Extent(es[cur].first, es[cur].len + x.len, es[cur].start)]
    case Prepend => es[cur := Extent(x.first, es[cur].len + x.len, es[cur].start)]
    case Split => es
    case Add(at) => es[..at] + [x] + es[at..]
  }

  /** No block of x is mapped by any of the extents. */
  ghost predicate Apart(x: Entry, es: seq<Entry>) {
    x.Extent? && forall i :: 0 <= i < |es| ==> es[i].Extent? && (End(es[i]) <= x.first || End(x) <= es[i].first)
  }

  /** For well-formed extents, being apart is having no mapped block in common. */
  lemma {:induction false} ApartIff(x: Entry, es: seq<Entry>)
    requires IsExtent(x) && Sorted(es)
    ensures Apart(x, es) <==> RangeMap(x).Keys !! View(es).Keys
  {
    if Apart(x, es) {
      ViewDisjoint(x, es);
    } else {
      var i :| 0 <= i < |es| && !(End(es[i]) <= x.first || End(x) <= es[i].first);
      var b := if es[i].first >= x.first then es[i].first else x.first;
      ViewAt(es, i, b);
      assert b in RangeMap(x);
    }
  }

  /** Everything before position g ends before x, everything from g on starts after it. */
  ghost predicate Gap(f: seq<Entry>, g: nat, x: Entry) {
    && x.Extent? && g <= |f|
    && (forall i :: 0 <= i < g ==> f[i].Extent? && End(f[i]) <= x.first)
    && (forall i :: g <= i < |f| ==> f[i].Extent? && End(x) <= f[i].first)
  }

  function GapIn(es: seq<Entry>, cur: int, x: Entry): nat
    requires -1 <= cur < |es|
  {
    if cur < 0 then 0 else if x.first > es[cur].first then cur + 1 else cur
  }

  /** The search result points at the gap x fits in. */
  lemma {:induction false} FindGap(a: seq<Entry>, es: seq<Entry>, b: seq<Entry>, cur: int, x: Entry)
    requires Sorted(a + es + b) && IsExtent(x) && Apart(x, a + es + b)
    requires AtPos(es, cur, x.first)
    requires b != [] ==> x.first < b[0].first
    requires a != [] ==> es != [] && es[0].first <= x.first
    requires es == [] ==> b == []
    ensures Gap(a + es + b, |a| + GapIn(es, cur, x), x)
  {
    var f := a + es + b;
    var g := |a| + GapIn(es, cur, x);
    if g < |f| {
      assert x.first <= f[g].first by {
        if g < |a| + |es| {
          assert f[g] == es[g - |a|];
        } else {
          assert f[g] == b[0];
        }
      }
    }
    if a != [] {
      assert f[|a|] == es[0];
      assert g > |a|;
    }
    if g > |a| {
      assert f[g - 1] == es[g - 1 - |a|];
    }
  }

  lemma {:induction false} SortedAdd(f: seq<Entry>, g: nat, x: Entry)
    requires Sorted(f) && IsExtent(x) && Gap(f, g, x)
    ensures Sorted(f[..g] + [x] + f[g..])
    ensures View(f[..g] + [x] + f[g..]) == View(f) + RangeMap(x)
  {
    hide View, RangeMap, Sorted;
    assert f[..g] + f[g..] == f;
    AddOrder(f, g, x);
    ViewInsert(f[..g], x, f[g..]);
  }

  lemma {:induction false} AddOrder(f: seq<Entry>, g: nat, x: Entry)
    requires Sorted(f) && IsExtent(x) && Gap(f, g, x)
    ensures Sorted(f[..g] + [x] + f[g..])
  {
    var s := f[..g] + [x] + f[g..];
    forall i | 0 <= i < |s|
      ensures s[i] == if i < g then f[i] else if i == g then x else f[i - 1]
    {
    }
  }

  /** Replacing one extent by a longer one that stays within its gap. */
  lemma {:induction false} SortedReplace(f: seq<Entry>, i: nat, y: Entry)
    requires Sorted(f) && i < |f| && IsExtent(y)
    requires forall j :: 0 <= j < i ==> End(f[j]) <= y.first
    requires forall j :: i < j < |f| ==> End(y) <= f[j].first
    ensures Sorted(f[i := y])
    ensures View(f[i := y]) == View(f[..i] + f[i + 1..]) + RangeMap(y)
  {
    assert f[i := y] == f[..i] + [y] + f[i + 1..];
    ViewInsert(f[..i], y, f[i + 1..]);
  }

  lemma {:induction false} SortedAppend(f: seq<Entry>, g: nat, x: Entry)
    requires Sorted(f) && IsExtent(x) && Gap(f, g, x) && g > 0 && CanAppend(f[g - 1], x)
    ensures var y := Extent(f[g - 1].first, f[g - 1].len + x.len, f[g - 1].start);
            Sorted(f[g - 1 := y]) && View(f[g - 1 := y]) == View(f) + RangeMap(x)
  {
    hide View, RangeMap, Sorted;
    var e := f[g - 1];
    var y := Extent(e.first, e.len + x.len, e.start);
    AppendFits(f, g, x);
    SortedReplace(f, g - 1, y);
    SortedReplace(f, g - 1, e);
    assert f[g - 1 := e] == f;
    RangeSplit(e, x);
    MapAssoc(View(f[..g - 1] + f[g - 1 + 1..]), RangeMap(e), RangeMap(x));
  }

  lemma {:induction false} AppendFits(f: seq<Entry>, g: nat, x: Entry)
    requires Sorted(f) && IsExtent(x) && Gap(f, g, x) && g > 0 && CanAppend(f[g - 1], x)
    ensures IsExtent(f[g - 1]) && IsExtent(Extent(f[g - 1].first, f[g - 1].len + x.len, f[g - 1].start))
    ensures forall j :: 0 <= j < g - 1 ==> End(f[j]) <= f[g - 1].first
    ensures forall j :: g - 1 < j < |f| ==>
              End(f[g - 1]) <= f[j].first && f[g - 1].first + f[g - 1].len + x.len <= f[j].first
  {
  }

  lemma {:induction false} RangeSplit(e: Entry, x: Entry)
    requires CanAppend(e, x)
    ensures RangeMap(Extent(e.first, e.len + x.len, e.start)) == RangeMap(e) + RangeMap(x)
  {
    var y := Extent(e.first, e.len + x.len, e.start);
    forall b: nat
      ensures Covers(y, b) <==> Covers(e, b) || Covers(x, b)
    {
    }
  }

  lemma {:induction false} SortedPrepend(f: seq<Entry>, x: Entry)
    requires Sorted(f) && IsExtent(x) && Gap(f, 0, x) && f != [] && CanPrepend(f[0], x)
    ensures var y := Extent(x.first, f[0].len + x.len, f[0].start);
            Sorted(f[0 := y]) && View(f[0 := y]) == View(f[1..]) + RangeMap(y)
  {
    var y := Extent(x.first, f[0].len + x.len, f[0].start);
    SortedReplace(f, 0, y);
    assert f[..0] + f[1..] == f[1..];
  }

  /** The map after inserting x into the extents f. When x ends where the first extent starts,
      on disk as well as in the file, the extent grows to the left but keeps its old start,
      so every block of it moves. */
  ghost function Inserted(f: seq<Entry>, x: Entry, noCombine: bool): map<nat, nat>
    requires x.Extent?
  {
    if Misplaced(f, x, noCombine)
    then View(f[1..]) + RangeMap(Extent(x.first, f[0].len + x.len, f[0].start))
    else View(f) + RangeMap(x)
  }

  /** The prepend branch would be taken. */
  ghost predicate Misplaced(f: seq<Entry>, x: Entry, noCombine: bool) {
    !noCombine && f != [] && CanPrepend(f[0], x)
  }

  // ---- what becomes of the extents, whatever the leaf ----

  /** y goes on where x ends, in the file and on disk, and one extent can hold both. */
  predicate Joins(x: Entry, y: Entry) {
    x.Extent? && y.Extent? && x.first + x.len == y.first && x.start + x.len == y.start && x.len + y.len <= 0x8000
  }

  /** x goes on from some extent of the file, or goes before its first one. */
  ghost predicate Merges(f: seq<Entry>, x: Entry) {
    (exists i :: 0 <= i < |f| && Joins(f[i], x)) || (f != [] && Joins(x, f[0]))
  }

  /** An extent of the file has become longer at its end, or the first one at its front, and no other has
      changed. At the front the old start is kept. */
  ghost predicate Longer(f: seq<Entry>, f': seq<Entry>, x: Entry) {
    || (exists i :: 0 <= i < |f| && Joins(f[i], x)
          && f' == f[i := Extent(f[i].first, f[i].len + x.len, f[i].start)])
    || (f != [] && Joins(x, f[0]) && f' == f[0 := Extent(x.first, f[0].len + x.len, f[0].start)])
  }

  /** x is one extent more, in its place. */
  ghost predicate OneMore(f: seq<Entry>, f': seq<Entry>, x: Entry) {
    exists g :: 0 <= g <= |f| && Gap(f, g, x) && f' == f[..g] + [x] + f[g..]
  }

  /** The extents after x was inserted: merged if it can be and may be, else one more. */
  ghost predicate Grows(f: seq<Entry>, f': seq<Entry>, x: Entry, noCombine: bool) {
    if !noCombine && Merges(f, x) then Longer(f, f', x) else OneMore(f, f', x)
  }

  /** The search ends at the extent x can be merged with, if there is one. */
  lemma {:induction false} MergesIff(a: seq<Entry>, es: seq<Entry>, b: seq<Entry>, cur: int, x: Entry, f: seq<Entry>)
    requires f == a + es + b && Sorted(f) && IsExtent(x) && Apart(x, f) && AtPos(es, cur, x.first)
    requires b != [] ==> x.first < b[0].first
    requires a != [] ==> es != [] && es[0].first <= x.first
    requires es == [] ==> b == []
    ensures Merges(f, x) <==> cur >= 0 && (CanAppend(es[cur], x) || CanPrepend(es[cur], x))
    ensures cur >= 0 && CanPrepend(es[cur], x) ==> cur == 0 && a == []
  {
    if cur >= 0 && CanPrepend(es[cur], x) {
      PrependFirst(a, es, cur, x);
      assert f[0] == es[0] && Joins(x, f[0]);
    }
    if cur >= 0 && CanAppend(es[cur], x) {
      assert f[|a| + cur] == es[cur] && Joins(f[|a| + cur], x);
    }
    if i :| 0 <= i < |f| && Joins(f[i], x) {
      JoinedAt(a, es, b, cur, x, f, i);
    }
    assert a != [] ==> f[0] == a[0] && f[|a|] == es[0];
    assert cur >= 0 ==> f[|a| + cur] == es[cur] && f[|a|] == es[0];
    if f != [] && Joins(x, f[0]) {
      assert a == [] && f[0] == es[0];
    }
  }

  lemma {:induction false} JoinedAt(a: seq<Entry>, es: seq<Entry>, b: seq<Entry>, cur: int, x: Entry, f: seq<Entry>,
          i: nat)
    requires f == a + es + b && Sorted(f) && IsExtent(x) && Apart(x, f) && AtPos(es, cur, x.first)
    requires b != [] ==> x.first < b[0].first
    requires a != [] ==> es != [] && es[0].first <= x.first
    requires i < |f| && Joins(f[i], x) && (es == [] ==> b == [])
    ensures cur >= 0 && i == |a| + cur
  {
    hide Sorted, Apart, Joins;
    FindGap(a, es, b, cur, x);
    assert cur >= 0 ==> f[|a| + cur] == es[cur];
    GapLast(f, |a| + GapIn(es, cur, x), x, i);
  }

  /** The extent x goes on from is the one before its gap. */
  lemma {:induction false} GapLast(f: seq<Entry>, g: nat, x: Entry, i: nat)
    requires Sorted(f) && IsExtent(x) && Gap(f, g, x) && i < |f| && Joins(f[i], x)
    ensures i + 1 == g
  {
    assert i < g;
    assert i + 1 < |f| ==> End(f[i]) <= f[i + 1].first && IsExtent(f[i + 1]);
  }

  lemma {:induction false} LongerAt(f: seq<Entry>, i: nat, x: Entry)
    requires i < |f|
    ensures Joins(f[i], x) ==> Longer(f, f[i := Extent(f[i].first, f[i].len + x.len, f[i].start)], x)
    ensures i == 0 && Joins(x, f[0]) ==> Longer(f, f[0 := Extent(x.first, f[0].len + x.len, f[0].start)], x)
  {
  }

  lemma {:induction false} OneMoreAt(f: seq<Entry>, g: nat, x: Entry)
    requires g <= |f| && Gap(f, g, x)
    ensures OneMore(f, f[..g] + [x] + f[g..], x)
  {
  }

  /** The branch taken, seen from the whole file: the leaf is split exactly if it is full and x cannot be merged
      with any extent of the file, or must not. */
  lemma {:induction false} ActionGrows(a: seq<Entry>, es: seq<Entry>, b: seq<Entry>, cur: int, max: nat, x: Entry,
          noCombine: bool, f: seq<Entry>)
    requires f == a + es + b && Sorted(f) && IsExtent(x) && Apart(x, f) && AtPos(es, cur, x.first) && Extents(es)
    requires b != [] ==> x.first < b[0].first
    requires a != [] ==> es != [] && es[0].first <= x.first
    requires es == [] ==> b == []
    ensures var act := ActionFor(es, cur, max, x, noCombine);
            && (act.Split? <==> |es| == max && (noCombine || !Merges(f, x)))
            && (!act.Split? ==> Grows(f, a + After(es, cur, x, act) + b, x, noCombine))
  {
    hide Merges, Longer, OneMore, Sorted, Apart, Extents, After, CanAppend, CanPrepend;
    MergesIff(a, es, b, cur, x, f);
    var act := ActionFor(es, cur, max, x, noCombine);
    if act.Append? || act.Prepend? {
      MergeGrows(a, es, b, cur, x, f, act);
    } else if act.Add? {
      AddGrows(a, es, b, cur, x, f);
    }
  }

  lemma {:induction false} MergeGrows(a: seq<Entry>, es: seq<Entry>, b: seq<Entry>, cur: nat, x: Entry, f: seq<Entry>,
          act: Action)
    requires f == a + es + b && cur < |es| && Extents(es) && x.Extent?
    requires if act.Append? then CanAppend(es[cur], x)
             else act.Prepend? && CanPrepend(es[cur], x) && cur == 0 && a == []
    ensures Longer(f, a + After(es, cur, x, act) + b, x)
  {
    hide Longer, Extents;
    UpdateMid(a, es, b, cur, After(es, cur, x, act)[cur]);
    LongerAt(f, |a| + cur, x);
  }

  lemma {:induction false} AddGrows(a: seq<Entry>, es: seq<Entry>, b: seq<Entry>, cur: int, x: Entry, f: seq<Entry>)
    requires f == a + es + b && Sorted(f) && IsExtent(x) && Apart(x, f) && AtPos(es, cur, x.first) && Extents(es)
    requires b != [] ==> x.first < b[0].first
    requires a != [] ==> es != [] && es[0].first <= x.first
    requires es == [] ==> b == []
    ensures OneMore(f, a + After(es, cur, x, Add(GapIn(es, cur, x))) + b, x)
  {
    hide OneMore, Sorted, Apart, Extents, Gap;
    FindGap(a, es, b, cur, x);
    InsertMid(a, es, b, GapIn(es, cur, x), x);
    OneMoreAt(f, |a| + GapIn(es, cur, x), x);
  }

  lemma {:induction false} GrowsHow(f: seq<Entry>, f': seq<Entry>, x: Entry, noCombine: bool)
    ensures Grows(f, f', x, noCombine) && !noCombine && Merges(f, x) ==> |f'| == |f|
    ensures OneMore(f, f', x) && (noCombine || !Merges(f, x)) ==> Grows(f, f', x, noCombine)
  {
  }

  /** A full root leaf whose last extent x goes on from: it is made longer, and not split. */
  lemma {:induction false} AppendExample()
    ensures var f, x := [Extent(0, 1, 100), Extent(10, 1, 200), Extent(20, 1, 300), Extent(30, 1, 400)],
                Extent(31, 1, 401);
            && Sorted(f) && IsExtent(x) && Apart(x, f) && AtPos(f, 3, 31) && Merges(f, x)
            && ActionFor(f, 3, 4, x, false) == Append
            && ActionFor(f, 3, 4, x, true) == Split
  {
    var f, x := [Extent(0, 1, 100), Extent(10, 1, 200), Extent(20, 1, 300), Extent(30, 1, 400)], Extent(31, 1, 401);
    assert Joins(f[3], x);
  }

  /** Replacing and inserting within the middle part of a sequence. */
  lemma {:induction false} UpdateMid(a: seq<Entry>, es: seq<Entry>, b: seq<Entry>, i: nat, y: Entry)
    requires i < |es|
    ensures (a + es + b)[|a| + i] == es[i]
    ensures a + es[i := y] + b == (a + es + b)[|a| + i := y]
  {
  }

  lemma {:induction false} InsertMid(a: seq<Entry>, es: seq<Entry>, b: seq<Entry>, i: nat, y: Entry)
    requires i <= |es|
    ensures a + (es[..i] + [y] + es[i..]) + b == (a + es + b)[..|a| + i] + [y] + (a + es + b)[|a| + i..]
  {
  }

  /** Every branch of ext4_ext_insert_leaf that changes the leaf, seen from the whole tree:
      f' is the whole sequence f with the leaf's part es changed. */
  lemma {:induction false} ActionEffect(a: seq<Entry>, es: seq<Entry>, b: seq<Entry>, cur: int, max: nat, x: Entry,
          noCombine: bool, f: seq<Entry>, f': seq<Entry>)
    requires f == a + es + b
    requires Sorted(f) && IsExtent(x) && Apart(x, f)
    requires AtPos(es, cur, x.first)
    requires b != [] ==> x.first < b[0].first
    requires a != [] ==> es != [] && es[0].first <= x.first
    requires es == [] ==> b == []
    requires Extents(es)
    requires !ActionFor(es, cur, max, x, noCombine).Split?
    requires f' == a + After(es, cur, x, ActionFor(es, cur, max, x, noCombine)) + b
    ensures Sorted(f') && View(f') == Inserted(f, x, noCombine)
  {
    FindGap(a, es, b, cur, x);
    match ActionFor(es, cur, max, x, noCombine) {
      case Append => AppendEffect(a, es, b, cur, x, noCombine, f);
      case Prepend => PrependEffect(a, es, b, cur, x, noCombine, f);
      case Add(at) =>
        NotMisplaced(a, es, b, cur, x, noCombine);
        AddEffect(a, es, b, at, x, noCombine, f);
    }
  }

  lemma {:induction false} AppendEffect(a: seq<Entry>, es: seq<Entry>, b: seq<Entry>, cur: nat, x: Entry,
          noCombine: bool, f: seq<Entry>)
    requires f == a + es + b
    requires Sorted(f) && IsExtent(x) && cur < |es| && CanAppend(es[cur], x)
    requires Gap(f, |a| + cur + 1, x)
    ensures var f' := a + es[cur := Extent(es[cur].first, es[cur].len + x.len, es[cur].start)] + b;
            Sorted(f') && View(f') == Inserted(f, x, noCombine)
  {
    hide View, RangeMap, Sorted;
    UpdateMid(a, es, b, cur, Extent(es[cur].first, es[cur].len + x.len, es[cur].start));
    SortedAppend(f, |a| + cur + 1, x);
    assert f[0].first <= x.first;
  }

  lemma {:induction false} PrependEffect(a: seq<Entry>, es: seq<Entry>, b: seq<Entry>, cur: nat, x: Entry,
          noCombine: bool, f: seq<Entry>)
    requires f == a + es + b
    requires Sorted(f) && IsExtent(x) && cur < |es| && CanPrepend(es[cur], x) && !noCombine
    requires AtPos(es, cur, x.first)
    requires a != [] ==> es[0].first <= x.first
    requires Gap(f, |a| + cur, x)
    ensures var f' := a + es[cur := Extent(x.first, es[cur].len + x.len, es[cur].start)] + b;
            Sorted(f') && View(f') == Inserted(f, x, noCombine)
  {
    PrependFirst(a, es, cur, x);
    var y := Extent(x.first, es[cur].len + x.len, es[cur].start);
    UpdateMid(a, es, b, cur, y);
    PrependWhole(f, x, noCombine, y, a + es[cur := y] + b);
  }

  lemma {:induction false} PrependWhole(f: seq<Entry>, x: Entry, noCombine: bool, y: Entry, f': seq<Entry>)
    requires Sorted(f) && IsExtent(x) && Gap(f, 0, x) && f != [] && CanPrepend(f[0], x) && !noCombine
    requires y == Extent(x.first, f[0].len + x.len, f[0].start) && f' == f[0 := y]
    ensures Sorted(f') && View(f') == Inserted(f, x, noCombine)
  {
    hide Sorted, View, RangeMap, Gap;
    SortedPrepend(f, x);
  }

  lemma {:induction false} AddEffect(a: seq<Entry>, es: seq<Entry>, b: seq<Entry>, at: nat, x: Entry, noCombine: bool,
          f: seq<Entry>)
    requires f == a + es + b
    requires Sorted(f) && IsExtent(x) && at <= |es|
    requires Gap(f, |a| + at, x) && !Misplaced(f, x, noCombine)
    ensures var f' := a + (es[..at] + [x] + es[at..]) + b;
            Sorted(f') && View(f') == Inserted(f, x, noCombine)
  {
    InsertMid(a, es, b, at, x);
    SortedAdd(f, |a| + at, x);
  }

  lemma {:induction false} PrependFirst(a: seq<Entry>, es: seq<Entry>, cur: nat, x: Entry)
    requires cur < |es| && CanPrepend(es[cur], x) && IsExtent(x)
    requires AtPos(es, cur, x.first)
    requires a != [] ==> es[0].first <= x.first
    ensures cur == 0 && a == []
  {
  }

  /** If the search did not stop at an extent x can be put before, no first extent is one. */
  lemma {:induction false} NotMisplaced(a: seq<Entry>, es: seq<Entry>, b: seq<Entry>, cur: int, x: Entry,
          noCombine: bool)
    requires Sorted(a + es + b) && IsExtent(x)
    requires AtPos(es, cur, x.first)
    requires a != [] ==> es != [] && es[0].first <= x.first
    requires es == [] ==> b == []
    requires cur >= 0 && !noCombine ==> !CanPrepend(es[cur], x)
    ensures !Misplaced(a + es + b, x, noCombine)
  {
    var f := a + es + b;
    if f != [] {
      if a != [] {
        assert f[|a|] == es[0] && f[0] == a[0];
      } else {
        assert f[0] == es[0] && f[cur] == es[cur];
      }
    }
  }

  /** Insertion adds exactly x to the map if and only if the prepend branch is not taken. */
  lemma {:induction false} InsertedExact(f: seq<Entry>, x: Entry, noCombine: bool)
    requires Sorted(f) && IsExtent(x) && Apart(x, f)
    ensures Inserted(f, x, noCombine) == View(f) + RangeMap(x) <==> !Misplaced(f, x, noCombine)
  {
    if Misplaced(f, x, noCombine) {
      var y := Extent(x.first, f[0].len + x.len, f[0].start);
      assert Covers(y, x.first) && Covers(x, x.first);
      assert Inserted(f, x, noCombine)[x.first] == f[0].start;
      assert (View(f) + RangeMap(x))[x.first] == x.start;
    }
  }

  /** A file with block 10 in disk block 110 gets disk block 109 for block 9: block 9 then reads
      disk block 110, and block 10 reads disk block 111. */
  lemma {:induction false} MisplacedExample()
    ensures var f, x := [Extent(10, 1, 110)], Extent(9, 1, 109);
            && Sorted(f) && IsExtent(x) && Apart(x, f) && Misplaced(f, x, false)
            && var m := Inserted(f, x, false); 9 in m && m[9] == 110 && 10 in m && m[10] == 111
  {
    var f, x, y := [Extent(10, 1, 110)], Extent(9, 1, 109), Extent(9, 2, 110);
    assert Inserted(f, x, false) == View(f[1..]) + RangeMap(y);
    assert Covers(y, 9) && Covers(y, 10);
  }
}
