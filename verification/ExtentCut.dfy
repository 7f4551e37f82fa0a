/** Cutting a run of extents at a block: what stays and what is given back. */
module ExtentCut {
  import opened ExtentEntries

  /** The part of e below block b, as zero or one extent. */
  function Low(e: Entry, b: nat): seq<Entry>
    requires IsExtent(e)
  {
    if End(e) <= b then [e] else if e.first < b then [Extent(e.first, b - e.first, e.start)] else []
  }

  /** The part of e from block b on. */
  function High(e: Entry, b: nat): seq<Entry>
    requires IsExtent(e)
  {
    if End(e) <= b then []
    else if e.first < b then [Extent(b, End(e) - b, e.start + (b - e.first))]
    else [e]
  }

  function LowAll(es: seq<Entry>, b: nat): seq<Entry>
    requires Extents(es)
  {
    if es == [] then [] else Low(es[0], b) + LowAll(es[1..], b)
  }

  function HighAll(es: seq<Entry>, b: nat): seq<Entry>
    requires Extents(es)
  {
    if es == [] then [] else High(es[0], b) + HighAll(es[1..], b)
  }

  ghost function Below(m: map<nat, nat>, b: nat): map<nat, nat> {
    map k | k in m && k < b :: m[k]
  }

  ghost function From(m: map<nat, nat>, b: nat): map<nat, nat> {
    map k | k in m && b <= k :: m[k]
  }

  lemma {:induction false} OneCut(e: Entry, b: nat)
    requires IsExtent(e)
    ensures Extents(Low(e, b)) && View(Low(e, b)) == Below(RangeMap(e), b)
    ensures Extents(High(e, b)) && View(High(e, b)) == From(RangeMap(e), b)
  {
    var low, high := Low(e, b), High(e, b);
    if low != [] {
      assert low[1..] == [] && View(low) == RangeMap(low[0]) + View(low[1..]);
      forall k: nat
        ensures Covers(low[0], k) <==> Covers(e, k) && k < b
      {
      }
    }
    if high != [] {
      assert high[1..] == [] && View(high) == RangeMap(high[0]) + View(high[1..]);
      forall k: nat
        ensures Covers(high[0], k) <==> Covers(e, k) && b <= k
      {
      }
    }
  }

  lemma {:induction false} CutEmpty(b: nat)
    ensures Below(map[], b) == map[] && From(map[], b) == map[]
  {
  }

  lemma {:induction false} MapCut(x: map<nat, nat>, y: map<nat, nat>, b: nat)
    ensures Below(x + y, b) == Below(x, b) + Below(y, b)
    ensures From(x + y, b) == From(x, b) + From(y, b)
  {
  }

  /** The low parts map exactly what was mapped below b, the high parts the rest. */
  lemma {:induction false} CutView(es: seq<Entry>, b: nat)
    requires Extents(es)
    ensures View(LowAll(es, b)) == Below(View(es), b)
    ensures View(HighAll(es, b)) == From(View(es), b)
  {
    hide RangeMap, Below, From, Low, High;
    if es == [] {
      CutEmpty(b);
    } else {
      CutView(es[1..], b);
      OneCut(es[0], b);
      MapCut(RangeMap(es[0]), View(es[1..]), b);
      ViewConcat(Low(es[0], b), LowAll(es[1..], b));
      ViewConcat(High(es[0], b), HighAll(es[1..], b));
    }
  }

  lemma {:induction false} CutConcat(x: seq<Entry>, y: seq<Entry>, b: nat)
    requires Extents(x + y)
    ensures Extents(x) && Extents(y)
    ensures LowAll(x + y, b) == LowAll(x, b) + LowAll(y, b)
    ensures HighAll(x + y, b) == HighAll(x, b) + HighAll(y, b)
  {
    hide Low, High, LowAll, HighAll;
    assert forall i :: 0 <= i < |x| ==> (x + y)[i] == x[i];
    assert forall i :: 0 <= i < |y| ==> (x + y)[|x| + i] == y[i];
    CutUnfold(x, b);
    if x == [] {
      assert x + y == y && [] + LowAll(y, b) == LowAll(y, b) && [] + HighAll(y, b) == HighAll(y, b);
    } else {
      assert (x + y)[1..] == x[1..] + y && (x + y)[0] == x[0];
      CutConcat(x[1..], y, b);
      CutUnfold(x + y, b);
      SeqAssoc(Low(x[0], b), LowAll(x[1..], b), LowAll(y, b));
      SeqAssoc(High(x[0], b), HighAll(x[1..], b), HighAll(y, b));
    }
  }

  lemma {:induction false} CutUnfold(es: seq<Entry>, b: nat)
    requires Extents(es)
    ensures es == [] ==> LowAll(es, b) == [] && HighAll(es, b) == []
    ensures es != [] ==>
              && IsExtent(es[0]) && Extents(es[1..])
              && LowAll(es, b) == Low(es[0], b) + LowAll(es[1..], b)
                 && HighAll(es, b) == High(es[0], b) + HighAll(es[1..], b)
  {
  }

  /** Extents that end before b stay as they are. */
  lemma {:induction false} AllLow(es: seq<Entry>, b: nat)
    requires Extents(es) && forall i :: 0 <= i < |es| ==> End(es[i]) <= b
    ensures LowAll(es, b) == es && HighAll(es, b) == []
  {
    if es != [] {
      assert forall i :: 0 <= i < |es[1..]| ==> es[1..][i] == es[i + 1];
      AllLow(es[1..], b);
    }
  }

  /** Extents that start at b or later go as they are. */
  lemma {:induction false} AllHigh(es: seq<Entry>, b: nat)
    requires Extents(es) && forall i :: 0 <= i < |es| ==> b <= es[i].first
    ensures LowAll(es, b) == [] && HighAll(es, b) == es
  {
    if es != [] {
      assert forall i :: 0 <= i < |es[1..]| ==> es[1..][i] == es[i + 1];
      AllHigh(es[1..], b);
    }
  }

  lemma {:induction false} LowSorted(es: seq<Entry>, b: nat)
    requires Sorted(es)
    ensures Sorted(LowAll(es, b))
    ensures LowAll(es, b) != [] ==> es != [] && LowAll(es, b)[0].first == es[0].first
  {
    hide Sorted, Low, LowAll, HighAll;
    LowUnfold(es, b);
    if es != [] {
      TailSorted(es);
      LowOne(es[0], b);
      if b < End(es[0]) {
        AllHigh(es[1..], b);
        assert Low(es[0], b) + [] == Low(es[0], b);
      } else {
        LowSorted(es[1..], b);
        ConsSorted(es[0], LowAll(es[1..], b));
      }
    }
  }

  lemma {:induction false} LowUnfold(es: seq<Entry>, b: nat)
    requires Sorted(es)
    ensures es == [] ==> LowAll(es, b) == [] && Sorted(LowAll(es, b))
    ensures es != [] ==> IsExtent(es[0]) && Extents(es[1..]) && LowAll(es, b) == Low(es[0], b) + LowAll(es[1..], b)
  {
  }

  lemma {:induction false} LowOne(e: Entry, b: nat)
    requires IsExtent(e)
    ensures Sorted(Low(e, b)) && (Low(e, b) != [] ==> Low(e, b)[0].first == e.first)
    ensures End(e) <= b ==> Low(e, b) == [e]
  {
  }

  lemma {:induction false} ConsSorted(e: Entry, rest: seq<Entry>)
    requires IsExtent(e) && Sorted(rest) && (rest != [] ==> End(e) <= rest[0].first)
    ensures Sorted([e] + rest)
  {
    var s := [e] + rest;
    forall i | 0 <= i < |s|
      ensures s[i] == if i == 0 then e else rest[i - 1]
    {
    }
  }

  lemma {:induction false} HighSorted(es: seq<Entry>, b: nat)
    requires Sorted(es)
    ensures Sorted(HighAll(es, b))
  {
    if es != [] {
      TailSorted(es);
      if b < End(es[0]) {
        HighHead(es, b);
      } else {
        HighSorted(es[1..], b);
        assert [] + HighAll(es[1..], b) == HighAll(es[1..], b);
      }
    }
  }

  lemma {:induction false} TailSorted(es: seq<Entry>)
    requires Sorted(es) && es != []
    ensures IsExtent(es[0]) && Sorted(es[1..]) && forall i :: 0 <= i < |es[1..]| ==> End(es[0]) <= es[1..][i].first
  {
    assert forall i :: 0 <= i < |es[1..]| ==> es[1..][i] == es[i + 1];
  }

  lemma {:induction false} HighHead(es: seq<Entry>, b: nat)
    requires Sorted(es) && es != [] && b < End(es[0])
    ensures Sorted(HighAll(es, b))
  {
    hide Sorted, LowAll, HighAll;
    TailSorted(es);
    AllHigh(es[1..], b);
    assert HighAll(es, b) == High(es[0], b) + HighAll(es[1..], b) by {
      HighUnfold(es, b);
    }
    HeadSorted(es, High(es[0], b)[0]);
    assert High(es[0], b) == [High(es[0], b)[0]];
  }

  lemma {:induction false} HighUnfold(es: seq<Entry>, b: nat)
    requires Extents(es) && es != []
    ensures HighAll(es, b) == High(es[0], b) + HighAll(es[1..], b)
  {
  }

  lemma {:induction false} HeadSorted(es: seq<Entry>, e: Entry)
    requires Sorted(es) && es != [] && IsExtent(e) && End(e) == End(es[0])
    ensures Sorted([e] + es[1..])
  {
    var f := [e] + es[1..];
    assert forall i :: 1 <= i < |f| ==> f[i] == es[i];
  }

  lemma {:induction false} SidesOf(x: seq<Entry>, e: Entry, y: seq<Entry>, b: nat)
    requires Sorted(x + [e] + y) && e.Extent? && e.first <= b < End(e)
    ensures Extents(x) && IsExtent(e) && Extents(y)
    ensures forall i :: 0 <= i < |x| ==> End(x[i]) <= b
    ensures forall i :: 0 <= i < |y| ==> b <= y[i].first
  {
    var f := x + [e] + y;
    assert forall i :: 0 <= i < |x| ==> f[i] == x[i];
    assert f[|x|] == e;
    assert forall i :: 0 <= i < |y| ==> f[|x| + 1 + i] == y[i];
  }

  /** In a sorted run around an extent that holds b: only that extent is cut. */
  lemma {:induction false} CutAround(x: seq<Entry>, e: Entry, y: seq<Entry>, b: nat)
    requires Sorted(x + [e] + y) && e.Extent? && e.first <= b < End(e)
    ensures Extents(x) && IsExtent(e) && Extents(y)
    ensures LowAll(x + [e] + y, b) == x + Low(e, b)
    ensures HighAll(x + [e] + y, b) == High(e, b) + y
  {
    hide Sorted, Low, High;
    SidesOf(x, e, y, b);
    ExtentsOf(x, e, y, b);
    CutConcat(x + [e], y, b);
    CutConcat(x, [e], b);
    AllLow(x, b);
    AllHigh(y, b);
    CutOne(e, b);
  }

  lemma {:induction false} CutOne(e: Entry, b: nat)
    requires IsExtent(e)
    ensures LowAll([e], b) == Low(e, b) && HighAll([e], b) == High(e, b)
  {
    assert [e][1..] == [];
    assert LowAll([e], b) == Low(e, b) + LowAll([], b) == Low(e, b);
    assert HighAll([e], b) == High(e, b) + HighAll([], b) == High(e, b);
  }

  lemma {:induction false} ExtentsOf(x: seq<Entry>, e: Entry, y: seq<Entry>, b: nat)
    requires Extents(x) && IsExtent(e) && Extents(y)
    ensures Extents(x + [e]) && Extents(x + [e] + y)
  {
  }

  /** Truncating at a block in a hole does nothing, so it is a truncation exactly if the block is
      mapped or nothing lies behind it. */
  lemma {:induction false} TruncateExact(m: map<nat, nat>, from: nat)
    ensures (if from in m then Below(m, from) else m) == Below(m, from)
            <==> from in m || forall k :: k in m ==> k < from
  {
    if from !in m {
      if k :| k in m && k >= from {
        assert k !in Below(m, from);
      } else {
        assert Below(m, from) == m;
      }
    }
  }

  /** Cutting a file off in a hole in front of its only block leaves the block. */
  lemma {:induction false} HoleExample()
    ensures var m := map[5 := 105];
            3 !in m && 5 in m && 5 !in Below(m, 3) && (if 3 in m then Below(m, 3) else m) != Below(m, 3)
  {
    var m := map[5 := 105];
    assert 5 in m && 5 !in Below(m, 3);
  }
}
