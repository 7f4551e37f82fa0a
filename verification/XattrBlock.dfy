/** One block, or inode body, of extended attributes: a table of entries that grows upwards and
    values that grow downwards from the end (lwext4/src/ext4_xattr.c). */
module XattrBlock {
  import opened Common

  datatype Err = EOK | ENOSPC

  /** An entry of the table: name index and name, and where its value lies. */
  datatype Ent = Ent(index: nat, name: string, offs: nat, size: nat)

  datatype Key = Key(index: nat, name: string)

  function KeyOf(e: Ent): Key {
    Key(e.index, e.name)
  }

  /** EXT4_XATTR_SIZE and EXT4_XATTR_LEN: sizes are rounded up to four. */
  function Round(n: nat): (r: nat)
    ensures n <= r < n + 4 && r % 4 == 0
  {
    (n + 3) / 4 * 4
  }

  /** Bytes of an entry: 16 of its own and the name, up to where the next one may begin. */
  function EntryLen(name: string): (r: nat)
    ensures |name| + 16 <= r < |name| + 20 && r % 4 == 0
  {
    Round(|name| + 16)
  }

  function TableLen(es: seq<Ent>): nat {
    if es == [] then 0 else TableLen(es[..|es| - 1]) + EntryLen(es[|es| - 1].name)
  }

  function ValueLen(es: seq<Ent>): nat {
    if es == [] then 0 else ValueLen(es[..|es| - 1]) + Round(es[|es| - 1].size)
  }

  function Stop(e: Ent): nat {
    e.offs + Round(e.size)
  }

  /** Entries, all but the one at skip, have values within the block that do not overlap. */
  ghost predicate Good(es: seq<Ent>, end: nat, skip: int) {
    && (forall i {:trigger es[i]} :: 0 <= i < |es| && i != skip ==> Stop(es[i]) <= end)
    && (forall i, j {:trigger es[i], es[j]} ::
          0 <= i < |es| && 0 <= j < |es| && i != j && i != skip && j != skip && es[i].size > 0 && es[j].size > 0 ==>
            Stop(es[i]) <= es[j].offs || Stop(es[j]) <= es[i].offs)
  }

  ghost predicate Distinct(es: seq<Ent>) {
    forall i, j {:trigger es[i], es[j]} :: 0 <= i < j < |es| ==> KeyOf(es[i]) != KeyOf(es[j])
  }

  /** The values lie between m and the end of the block, and fill this space if they are packed. */
  ghost predicate Tight(es: seq<Ent>, end: nat, m: nat, skip: int, packed: bool) {
    && m <= end
    && (forall i {:trigger es[i]} :: 0 <= i < |es| && i != skip && es[i].size > 0 ==> m <= es[i].offs)
    && (packed ==> forall x: nat {:trigger Covered(es, x, skip)} :: m <= x < end ==> Covered(es, x, skip))
  }

  ghost predicate Covered(es: seq<Ent>, x: nat, skip: int) {
    exists i {:trigger es[i]} :: 0 <= i < |es| && i != skip && es[i].offs <= x < Stop(es[i])
  }

  /** The lowest value of the first n entries, as the source computes it. */
  function MinOffs(es: seq<Ent>, n: nat, end: nat): nat
    requires n <= |es|
  {
    if n == 0 then end
    else if es[n - 1].size != 0 && es[n - 1].offs < MinOffs(es, n - 1, end) then es[n - 1].offs
    else MinOffs(es, n - 1, end)
  }

  lemma {:induction false} MinBelow(es: seq<Ent>, n: nat, end: nat)
    requires n <= |es|
    ensures MinOffs(es, n, end) <= end
    ensures forall i {:trigger es[i]} :: 0 <= i < n && es[i].size != 0 ==> MinOffs(es, n, end) <= es[i].offs
    ensures MinOffs(es, n, end) == end
              || exists i {:trigger es[i]} :: 0 <= i < n && es[i].size != 0 && es[i].offs == MinOffs(es, n, end)
  {
    if n > 0 {
      MinBelow(es, n - 1, end);
    }
  }

  /** No value lies below the lowest one, and when the values are packed they begin there. */
  lemma {:induction false} MinIs(es: seq<Ent>, end: nat, m: nat, packed: bool)
    requires Good(es, end, -1) && Tight(es, end, m, -1, packed)
    ensures m <= MinOffs(es, |es|, end) && (packed ==> MinOffs(es, |es|, end) == m)
    ensures Tight(es, end, MinOffs(es, |es|, end), -1, packed)
  {
    MinBelow(es, |es|, end);
    if packed && m < end {
      assert Covered(es, m, -1);
    }
  }

  /** Values that fill the space from m on take exactly that much. */
  lemma {:induction false} SpaceUsed(es: seq<Ent>, end: nat, m: nat)
    requires Good(es, end, -1) && Tight(es, end, m, -1, true)
    ensures ValueLen(es) == end - m
    decreases |es|
  {
    if m == end {
      NoneLeft(es, end);
    } else {
      assert Covered(es, m, -1);
      var i :| 0 <= i < |es| && es[i].offs <= m < Stop(es[i]);
      var rest := es[..i] + es[i + 1..];
      LowestGone(es, end, m, i);
      SpaceUsed(rest, end, Stop(es[i]));
      ValueLenWithout(es, i);
    }
  }

  lemma {:induction false} NoneLeft(es: seq<Ent>, end: nat)
    requires Good(es, end, -1) && Tight(es, end, end, -1, true)
    ensures ValueLen(es) == 0
    decreases |es|
  {
    if es != [] {
      var n := |es| - 1;
      assert es[n].size == 0;
      NoneLeft(es[..n], end);
    }
  }

  lemma {:induction false} LowestGone(es: seq<Ent>, end: nat, m: nat, i: nat)
    requires Good(es, end, -1) && Tight(es, end, m, -1, true) && i < |es| && es[i].offs == m && es[i].size > 0
    ensures Good(es[..i] + es[i + 1..], end, -1) && Tight(es[..i] + es[i + 1..], end, Stop(es[i]), -1, true)
  {
    var rest := es[..i] + es[i + 1..];
    forall k | 0 <= k < |rest|
      ensures rest[k] == es[if k < i then k else k + 1] && (rest[k].size > 0 ==> Stop(es[i]) <= rest[k].offs)
    {
      assert es[if k < i then k else k + 1].size > 0 ==> m <= es[if k < i then k else k + 1].offs;
    }
    forall x: nat | Stop(es[i]) <= x < end
      ensures Covered(rest, x, -1)
    {
      assert Covered(es, x, -1);
      var k :| 0 <= k < |es| && es[k].offs <= x < Stop(es[k]);
      assert rest[if k < i then k else k - 1] == es[k];
    }
  }

  lemma {:induction false} ValueLenWithout(es: seq<Ent>, i: nat)
    requires i < |es|
    ensures ValueLen(es) == ValueLen(es[..i] + es[i + 1..]) + Round(es[i].size)
    ensures TableLen(es) == TableLen(es[..i] + es[i + 1..]) + EntryLen(es[i].name)
    decreases |es|
  {
    var n := |es| - 1;
    if i == n {
      assert es[..i] + es[i + 1..] == es[..n];
    } else {
      ValueLenWithout(es[..n], i);
      assert (es[..i] + es[i + 1..])[..n - 1] == es[..n][..i] + es[..n][i + 1..];
    }
  }

  // ---- taking a value out, putting one in ----

  /** The offsets after the value at from, len bytes long, was taken out. */
  function Shifted(es: seq<Ent>, from: nat, len: nat): (r: seq<Ent>)
    ensures |r| == |es|
    ensures forall i {:trigger r[i]} :: 0 <= i < |es| ==>
              r[i] == if es[i].offs < from then es[i].(offs := es[i].offs + len) else es[i]
  {
    seq(|es|, i requires 0 <= i < |es| => if es[i].offs < from then es[i].(offs := es[i].offs + len) else es[i])
  }

  lemma {:induction false} TakenOut(es: seq<Ent>, end: nat, m: nat, i: nat, packed: bool)
    requires Good(es, end, -1) && Tight(es, end, m, -1, packed) && i < |es|
    ensures var r := Shifted(es, es[i].offs, Round(es[i].size));
            Good(r, end, i) && Tight(r, end, m + Round(es[i].size), i, packed)
  {
    TakenGood(es, end, m, i, packed);
    hide Good, Round;
    var from, len := es[i].offs, Round(es[i].size);
    var r := Shifted(es, from, len);
    if packed {
      forall x: nat | m + len <= x < end
        ensures Covered(r, x, i)
      {
        var y: nat := if x < from + len then x - len else x;
        assert Covered(es, y, -1);
        var k :| 0 <= k < |es| && es[k].offs <= y < Stop(es[k]);
        assert k != i;
        assert r[k].offs <= x < Stop(r[k]);
      }
    }
  }

  lemma {:induction false} TakenGood(es: seq<Ent>, end: nat, m: nat, i: nat, packed: bool)
    requires Good(es, end, -1) && Tight(es, end, m, -1, packed) && i < |es|
    ensures var from, len := es[i].offs, Round(es[i].size); var r := Shifted(es, from, len);
            && Good(r, end, i) && (len > 0 ==> m <= from) && from + len <= end && m + len <= end
            && (forall k {:trigger es[k]} :: 0 <= k < |es| && k != i && es[k].size > 0 ==>
                  && m + len <= r[k].offs
                  && if es[k].offs < from
                     then (len > 0 ==> Stop(es[k]) <= from) && r[k].offs == es[k].offs + len
                          && Stop(r[k]) == Stop(es[k]) + len
                     else (len > 0 ==> from + len <= es[k].offs) && r[k] == es[k])
  {
    hide Covered;
    var from, len := es[i].offs, Round(es[i].size);
    var r := Shifted(es, from, len);
    assert len == 0 <==> es[i].size == 0;
    assert Stop(es[i]) <= end;
    forall k {:trigger es[k]} | 0 <= k < |es| && k != i && es[k].size > 0
      ensures m + len <= r[k].offs
      ensures if es[k].offs < from
              then (len > 0 ==> Stop(es[k]) <= from) && r[k].offs == es[k].offs + len && Stop(r[k]) == Stop(es[k]) + len
              else (len > 0 ==> from + len <= es[k].offs) && r[k] == es[k]
    {
      assert m <= es[k].offs;
    }
    forall k | 0 <= k < |es| && k != i
      ensures Stop(r[k]) <= end
    {
      assert Stop(es[k]) <= end;
    }
  }

  /** A value that ends where the others begin. An empty one lies nowhere and has the offset 0. */
  ghost predicate Below(e: Ent, m: nat) {
    if e.size > 0 then Stop(e) == m else e.offs == 0
  }

  lemma {:induction false} PutIn(es: seq<Ent>, end: nat, m: nat, i: nat, e: Ent, packed: bool)
    requires Good(es, end, i) && Tight(es, end, m, i, packed) && i < |es| && Below(e, m)
    ensures Round(e.size) <= m && Good(es[i := e], end, -1) && Tight(es[i := e], end, m - Round(e.size), -1, packed)
  {
    var r := es[i := e];
    assert forall k :: 0 <= k < |es| && k != i ==> r[k] == es[k];
    if packed {
      forall x: nat | m - Round(e.size) <= x < end
        ensures Covered(r, x, -1)
      {
        if x < m {
          assert r[i] == e;
        } else {
          assert Covered(es, x, i);
          var k :| 0 <= k < |es| && k != i && es[k].offs <= x < Stop(es[k]);
          assert r[k] == es[k];
        }
      }
    }
  }

  lemma {:induction false} PutLast(es: seq<Ent>, end: nat, m: nat, e: Ent, packed: bool)
    requires Good(es, end, -1) && Tight(es, end, m, -1, packed) && Below(e, m)
    ensures Round(e.size) <= m && Good(es + [e], end, -1) && Tight(es + [e], end, m - Round(e.size), -1, packed)
  {
    var r := es + [e];
    assert forall k :: 0 <= k < |es| ==> r[k] == es[k];
    if packed {
      forall x: nat | m - Round(e.size) <= x < end
        ensures Covered(r, x, -1)
      {
        if x < m {
          assert r[|es|] == e;
        } else {
          assert Covered(es, x, -1);
          var k :| 0 <= k < |es| && es[k].offs <= x < Stop(es[k]);
          assert r[k] == es[k];
        }
      }
    }
  }

  lemma {:induction false} CutOut(es: seq<Ent>, end: nat, m: nat, i: nat, packed: bool)
    requires Good(es, end, i) && Tight(es, end, m, i, packed) && i < |es|
    ensures Good(es[..i] + es[i + 1..], end, -1) && Tight(es[..i] + es[i + 1..], end, m, -1, packed)
  {
    var r := es[..i] + es[i + 1..];
    forall k | 0 <= k < |r|
      ensures r[k] == es[if k < i then k else k + 1]
    {
    }
    if packed {
      forall x: nat | m <= x < end
        ensures Covered(r, x, -1)
      {
        assert Covered(es, x, i);
        var k :| 0 <= k < |es| && k != i && es[k].offs <= x < Stop(es[k]);
        assert r[if k < i then k else k - 1] == es[k];
      }
    }
  }

  // ---- names and values ----

  function Value(e: Ent, b: seq<nat>): (v: seq<nat>)
    requires e.offs + e.size <= |b|
  {
    b[e.offs..e.offs + e.size]
  }

  /** The entry with a key, |es| if there is none. */
  function FindKey(es: seq<Ent>, n: nat, key: Key): (i: nat)
    requires n <= |es|
    ensures i < n || i == |es|
    ensures i < |es| ==> KeyOf(es[i]) == key
    ensures i == |es| ==> forall k {:trigger es[k]} :: 0 <= k < n ==> KeyOf(es[k]) != key
  {
    if n == 0 then |es|
    else if FindKey(es, n - 1, key) < |es| then FindKey(es, n - 1, key)
    else if KeyOf(es[n - 1]) == key then n - 1 else |es|
  }

  lemma {:induction false} FoundKey(es: seq<Ent>, i: nat)
    requires Distinct(es) && i < |es|
    ensures FindKey(es, |es|, KeyOf(es[i])) == i
  {
  }

  /** What a block says about a key. */
  function Lookup(es: seq<Ent>, b: seq<nat>, key: Key): Option<seq<nat>> {
    var i := FindKey(es, |es|, key);
    if i < |es| && es[i].offs + es[i].size <= |b| then Some(Value(es[i], b)) else None
  }

  /** The name that is stored for a key. Its length has one byte, and only as many characters can be
      read back: the end of the table is marked right behind them. */
  function Stored(key: Key): (r: Key)
    ensures |r.name| <= 255 && (r == key <==> |key.name| <= 255)
  {
    Key(key.index, key.name[..|key.name| % 256])
  }

  /** Entry k has a counterpart with its name and its value. */
  ghost predicate CarriedAt(es: seq<Ent>, b: seq<nat>, es': seq<Ent>, b': seq<nat>, k: nat) {
    && k < |es| && Stop(es[k]) <= |b|
    && exists j {:trigger es'[j]} ::
         0 <= j < |es'| && KeyOf(es'[j]) == KeyOf(es[k]) && Stop(es'[j]) <= |b'| && Value(es'[j], b') == Value(es[k], b)
  }

  ghost predicate Carried(es: seq<Ent>, b: seq<nat>, es': seq<Ent>, b': seq<nat>, key: Key) {
    forall k {:trigger es[k]} :: 0 <= k < |es| && KeyOf(es[k]) != key ==> CarriedAt(es, b, es', b', k)
  }

  ghost predicate NoneNew(es: seq<Ent>, es': seq<Ent>, key: Key) {
    forall j {:trigger es'[j]} :: 0 <= j < |es'| && KeyOf(es'[j]) != key ==>
      exists k {:trigger es[k]} :: 0 <= k < |es| && KeyOf(es[k]) == KeyOf(es'[j])
  }

  ghost predicate Holds(es: seq<Ent>, b: seq<nat>, key: Key, v: Option<seq<nat>>) {
    if v.Some?
    then exists j {:trigger es[j]} ::
           0 <= j < |es| && KeyOf(es[j]) == key && Stop(es[j]) <= |b| && Value(es[j], b) == v.value
    else forall j {:trigger es[j]} :: 0 <= j < |es| ==> KeyOf(es[j]) != key
  }

  /** The entries that keep their values, and one key that may have a new one. */
  lemma {:induction false} LookupSame(es: seq<Ent>, b: seq<nat>, es': seq<Ent>, b': seq<nat>, key: Key,
          v: Option<seq<nat>>)
    requires Distinct(es) && Distinct(es') && Good(es, |b|, -1) && Good(es', |b'|, -1)
    requires Carried(es, b, es', b', key) && NoneNew(es, es', key) && Holds(es', b', key, v)
    ensures forall k :: Lookup(es', b', k) == if k == key then v else Lookup(es, b, k)
  {
    forall k
      ensures Lookup(es', b', k) == if k == key then v else Lookup(es, b, k)
    {
      if k == key {
        if v.Some? {
          var j :| 0 <= j < |es'| && KeyOf(es'[j]) == key && Stop(es'[j]) <= |b'| && Value(es'[j], b') == v.value;
          FoundKey(es', j);
        }
      } else {
        var i := FindKey(es, |es|, k);
        if i < |es| {
          assert CarriedAt(es, b, es', b', i);
          var j :| 0 <= j < |es'| && KeyOf(es'[j]) == KeyOf(es[i]) && Stop(es'[j]) <= |b'| && Stop(es[i]) <= |b|
                   && Value(es'[j], b') == Value(es[i], b);
          FoundKey(es', j);
        }
      }
    }
  }

  /** The bytes after the value at from was taken out, those below moved up to close the gap, and the
      space they left filled with zeros. */
  ghost predicate Closed(b: seq<nat>, b': seq<nat>, m: nat, from: nat, len: nat) {
    && |b'| == |b| && (len > 0 ==> m <= from && from + len <= |b|)
    && (forall x {:trigger b'[x]} :: 0 <= x < |b| && m + len <= x < from + len ==> b'[x] == b[x - len])
    && (forall x {:trigger b'[x]} :: 0 <= x < |b| && m <= x < m + len ==> b'[x] == 0)
    && (forall x {:trigger b'[x]} :: 0 <= x < |b| && (x < m || from + len <= x) ==> b'[x] == b[x])
  }

  /** The other values move with their offsets and do not change. */
  lemma {:induction false} ValuesKept(es: seq<Ent>, b: seq<nat>, b': seq<nat>, m: nat, i: nat, k: nat)
    requires Good(es, |b|, -1) && Tight(es, |b|, m, -1, false) && i < |es| && k < |es| && k != i
    requires Closed(b, b', m, es[i].offs, Round(es[i].size))
    ensures var r := Shifted(es, es[i].offs, Round(es[i].size));
            Stop(r[k]) <= |b'| && Stop(es[k]) <= |b| && Value(r[k], b') == Value(es[k], b)
  {
    var r := Shifted(es, es[i].offs, Round(es[i].size));
    TakenOut(es, |b|, m, i, false);
    assert Stop(es[k]) <= |b| && Stop(r[k]) <= |b| && Stop(es[i]) <= |b|;
    var x, y := Value(r[k], b'), Value(es[k], b);
    assert |x| == |y|;
    if es[i].size == 0 {
      assert Round(es[i].size) == 0 && r[k] == es[k];
    } else if es[k].size > 0 {
      assert m <= es[k].offs && (Stop(es[k]) <= es[i].offs || Stop(es[i]) <= es[k].offs);
    }
    forall j {:trigger x[j]} | 0 <= j < |x|
      ensures x[j] == y[j]
    {
      assert x[j] == b'[r[k].offs + j] && y[j] == b[es[k].offs + j];
    }
  }

  /** All entries but those of a key. */
  function Others(es: seq<Ent>, key: Key): seq<Ent> {
    var i := FindKey(es, |es|, key);
    if i < |es| then es[..i] + es[i + 1..] else es
  }

  /** Bytes that an attribute with this value, and all others, take in a block. */
  function Needed(first: nat, es: seq<Ent>, key: Key, v: seq<nat>): nat {
    first + TableLen(Others(es, key)) + EntryLen(key.name) + 4 + ValueLen(Others(es, key)) + Round(|v|)
  }

  /** What is free below the lowest value, and what the attribute takes now. */
  function Free(first: nat, es: seq<Ent>, b: seq<nat>, key: Key): int {
    MinOffs(es, |es|, |b|) - (first + TableLen(es)) - 4
    + match Lookup(es, b, key) case Some(v) => Round(|v|) + EntryLen(key.name) case None => 0
  }

  lemma {:induction false} FoundSize(es: seq<Ent>, b: seq<nat>, key: Key)
    requires Good(es, |b|, -1)
    ensures var i := FindKey(es, |es|, key);
            if i < |es| then
              Lookup(es, b, key).Some? && |Lookup(es, b, key).value| == es[i].size && es[i].name == key.name
            else Lookup(es, b, key) == None
  {
    var i := FindKey(es, |es|, key);
    assert i < |es| ==> Stop(es[i]) <= |b|;
  }

  /** In a packed block the attribute fits into the free space exactly if all attributes fit into the block. */
  lemma {:induction false} FreeExact(first: nat, es: seq<Ent>, b: seq<nat>, m: nat, key: Key, v: seq<nat>)
    requires Good(es, |b|, -1) && Tight(es, |b|, m, -1, true)
    ensures Free(first, es, b, key) < Round(|v|) + EntryLen(key.name) <==> Needed(first, es, key, v) > |b|
  {
    hide Good, Tight, Round, Lookup, FindKey, MinOffs, TableLen, ValueLen;
    MinIs(es, |b|, m, true);
    SpaceUsed(es, |b|, m);
    FoundSize(es, b, key);
    var i := FindKey(es, |es|, key);
    if i < |es| {
      ValueLenWithout(es, i);
    }
  }

  lemma {:induction false} TableLenSame(es: seq<Ent>, r: seq<Ent>)
    requires |r| == |es| && forall k {:trigger r[k]} :: 0 <= k < |es| ==> r[k].name == es[k].name
    ensures TableLen(r) == TableLen(es)
    decreases |es|
  {
    if es != [] {
      TableLenSame(es[..|es| - 1], r[..|es| - 1]);
    }
  }

  ghost predicate SameOutside(b: seq<nat>, b': seq<nat>, from: nat, to: nat) {
    |b'| == |b| && forall x {:trigger b'[x]} :: 0 <= x < |b| && (x < from || to <= x) ==> b'[x] == b[x]
  }

  lemma {:induction false} ValueApart(e: Ent, b: seq<nat>, b': seq<nat>, from: nat, to: nat)
    requires SameOutside(b, b', from, to) && Stop(e) <= |b| && (e.size == 0 || Stop(e) <= from || to <= e.offs)
    ensures Value(e, b') == Value(e, b)
  {
    var x, y := Value(e, b'), Value(e, b);
    forall j {:trigger x[j]} | 0 <= j < |x|
      ensures x[j] == y[j]
    {
      assert x[j] == b'[e.offs + j] && y[j] == b[e.offs + j];
    }
  }

  /** The value v was stored below m; an empty one is stored nowhere. */
  ghost predicate StoredBelow(b: seq<nat>, b': seq<nat>, m: nat, offs: nat, v: seq<nat>) {
    && |b'| == |b| && m <= |b|
    && if |v| > 0 then offs + Round(|v|) == m && SameOutside(b, b', offs, m) && b'[offs..offs + |v|] == v
       else offs == 0 && b' == b
  }

  /** A value stored below m is no matter to those that lie above. */
  lemma {:induction false} StoredApart(e: Ent, b: seq<nat>, b': seq<nat>, m: nat, offs: nat, v: seq<nat>)
    requires StoredBelow(b, b', m, offs, v) && Stop(e) <= |b| && (e.size == 0 || m <= e.offs)
    ensures Value(e, b') == Value(e, b)
  {
    if |v| > 0 {
      ValueApart(e, b, b', offs, m);
    }
  }

  /** It can be read back. */
  lemma {:induction false} StoredThere(e: Ent, b: seq<nat>, b': seq<nat>, m: nat, offs: nat, v: seq<nat>)
    requires StoredBelow(b, b', m, offs, v) && e.offs == offs && e.size == |v|
    ensures Below(e, m) && Stop(e) <= |b'| && Value(e, b') == v && Round(|v|) <= m
  {
  }

  /** A value replaced. */
  lemma {:induction false} Replaced(es: seq<Ent>, b: seq<nat>, b1: seq<nat>, b2: seq<nat>, m: nat, i: nat, v: seq<nat>,
          vo: nat, packed: bool)
    requires Good(es, |b|, -1) && Tight(es, |b|, m, -1, packed) && Distinct(es) && i < |es|
    requires Closed(b, b1, m, es[i].offs, Round(es[i].size)) && StoredBelow(b1, b2, m + Round(es[i].size), vo, v)
    ensures var es2 := Shifted(es, es[i].offs, Round(es[i].size))[i := es[i].(offs := vo, size := |v|)];
            && Round(|v|) <= m + Round(es[i].size)
            && Good(es2, |b2|, -1) && Tight(es2, |b2|, m + Round(es[i].size) - Round(|v|), -1, packed)
            && Distinct(es2) && TableLen(es2) == TableLen(es)
            && forall k :: Lookup(es2, b2, k) == if k == KeyOf(es[i]) then Some(v) else Lookup(es, b, k)
  {
    var r := Shifted(es, es[i].offs, Round(es[i].size));
    var e := es[i].(offs := vo, size := |v|);
    var es2 := r[i := e];
    hide *;
    Lengths(b, b1, b2, m, es[i].offs, Round(es[i].size), vo, v);
    SameKey(es[i], vo, |v|);
    StoredThere(e, b1, b2, m + Round(es[i].size), vo, v);
    TakenOut(es, |b|, m, i, packed);
    PutIn(r, |b|, m + Round(es[i].size), i, e, packed);
    NamesKept(es, i, e);
    TableLenSame(es, es2);
    Loosened(es, |b|, m, packed);
    ReplacedAll(es, b, b1, b2, m, i, v, vo, e);
    LookupSame(es, b, es2, b2, KeyOf(es[i]), Some(v));
  }

  lemma {:induction false} SameKey(was: Ent, offs: nat, size: nat)
    ensures KeyOf(was.(offs := offs, size := size)) == KeyOf(was)
  {
  }

  lemma {:induction false} Loosened(es: seq<Ent>, end: nat, m: nat, packed: bool)
    requires Tight(es, end, m, -1, packed)
    ensures Tight(es, end, m, -1, false)
  {
  }

  lemma {:induction false} Lengths(b: seq<nat>, b1: seq<nat>, b2: seq<nat>, m: nat, from: nat, len: nat, vo: nat,
          v: seq<nat>)
    requires Closed(b, b1, m, from, len) && StoredBelow(b1, b2, m + len, vo, v)
    ensures |b1| == |b| && |b2| == |b|
  {
  }

  lemma {:induction false} ReplacedAll(es: seq<Ent>, b: seq<nat>, b1: seq<nat>, b2: seq<nat>, m: nat, i: nat,
          v: seq<nat>, vo: nat, e: Ent)
    requires Good(es, |b|, -1) && Tight(es, |b|, m, -1, false) && i < |es| && e == es[i].(offs := vo, size := |v|)
    requires Closed(b, b1, m, es[i].offs, Round(es[i].size)) && |b1| == |b|
    requires StoredBelow(b1, b2, m + Round(es[i].size), vo, v) && |b2| == |b|
    ensures var es2 := Shifted(es, es[i].offs, Round(es[i].size))[i := e];
            && Carried(es, b, es2, b2, KeyOf(es[i])) && NoneNew(es, es2, KeyOf(es[i]))
            && Holds(es2, b2, KeyOf(es[i]), Some(v))
  {
    hide Good, Tight, Closed, StoredBelow, Round;
    var es2 := Shifted(es, es[i].offs, Round(es[i].size))[i := e];
    NamesKept(es, i, e);
    StoredThere(e, b1, b2, m + Round(es[i].size), vo, v);
    forall k | 0 <= k < |es| && KeyOf(es[k]) != KeyOf(es[i])
      ensures CarriedAt(es, b, es2, b2, k)
    {
      ReplacedAt(es, b, b1, b2, m, i, v, vo, k);
      assert KeyOf(es2[k]) == KeyOf(es[k]) && Value(es2[k], b2) == Value(es[k], b);
    }
    forall j | 0 <= j < |es2|
      ensures KeyOf(es2[j]) == KeyOf(es[j])
    {
    }
    assert KeyOf(es2[i]) == KeyOf(es[i]) && Stop(es2[i]) <= |b2| && Value(es2[i], b2) == v;
  }

  /** Shifting and replacing values leaves the names alone. */
  lemma {:induction false} NamesKept(es: seq<Ent>, i: nat, e: Ent)
    requires i < |es| && KeyOf(e) == KeyOf(es[i])
    ensures var r := Shifted(es, es[i].offs, Round(es[i].size));
            && (forall k {:trigger r[i := e][k]} :: 0 <= k < |es| ==>
                  KeyOf(r[i := e][k]) == KeyOf(es[k]) && r[i := e][k].name == es[k].name)
            && (Distinct(es) ==> Distinct(r[i := e]))
  {
    var r := Shifted(es, es[i].offs, Round(es[i].size));
    forall k | 0 <= k < |es|
      ensures KeyOf(r[i := e][k]) == KeyOf(es[k])
    {
      assert k != i ==> r[i := e][k] == r[k];
    }
  }

  lemma {:induction false} ReplacedAt(es: seq<Ent>, b: seq<nat>, b1: seq<nat>, b2: seq<nat>, m: nat, i: nat,
          v: seq<nat>, vo: nat, k: nat)
    requires Good(es, |b|, -1) && Tight(es, |b|, m, -1, false) && i < |es| && k < |es| && k != i
    requires Closed(b, b1, m, es[i].offs, Round(es[i].size)) && |b1| == |b|
    requires StoredBelow(b1, b2, m + Round(es[i].size), vo, v)
    ensures var r := Shifted(es, es[i].offs, Round(es[i].size));
            Stop(r[k]) <= |b2| == |b| && Stop(es[k]) <= |b| && Value(r[k], b2) == Value(es[k], b)
  {
    var r := Shifted(es, es[i].offs, Round(es[i].size));
    TakenOut(es, |b|, m, i, false);
    ValuesKept(es, b, b1, m, i, k);
    AboveAll(r, |b|, m + Round(es[i].size), i, k);
    hide Good, Tight, Closed, Shifted;
    StoredApart(r[k], b1, b2, m + Round(es[i].size), vo, v);
  }

  lemma {:induction false} AboveAll(es: seq<Ent>, end: nat, m: nat, skip: int, k: nat)
    requires Tight(es, end, m, skip, false) && k < |es| && k != skip
    ensures es[k].size == 0 || m <= es[k].offs
  {
  }

  /** The entry that is written for a new attribute. */
  function NewEnt(key: Key, offs: nat, size: nat): (e: Ent)
    ensures KeyOf(e) == Stored(key) && EntryLen(e.name) <= EntryLen(key.name)
  {
    Ent(key.index, Stored(key).name, offs, size)
  }

  /** An attribute added. */
  lemma {:induction false} Appended(es: seq<Ent>, b: seq<nat>, b2: seq<nat>, m: nat, key: Key, v: seq<nat>, vo: nat,
          packed: bool)
    requires Good(es, |b|, -1) && Tight(es, |b|, m, -1, packed) && Distinct(es) && StoredBelow(b, b2, m, vo, v)
    ensures var es2 := es + [NewEnt(key, vo, |v|)];
            && Round(|v|) <= m
            && Good(es2, |b2|, -1) && Tight(es2, |b2|, m - Round(|v|), -1, packed)
            && (Distinct(es2) <==> Lookup(es, b, Stored(key)) == None)
            && TableLen(es2) <= TableLen(es) + EntryLen(key.name)
            && forall k ::
                 Lookup(es2, b2, k) == if k == Stored(key) && Lookup(es, b, k) == None then Some(v)
                                       else Lookup(es, b, k)
  {
    hide *;
    var e := NewEnt(key, vo, |v|);
    FreshEntry(key, vo, |v|);
    StoredThere(e, b, b2, m, vo, v);
    StoredLength(b, b2, m, vo, v);
    PutLast(es, |b|, m, e, packed);
    FoundSize(es, b, Stored(key));
    AppendedTable(es, e);
    Loosened(es, |b|, m, packed);
    AppendedAll(es, b, b2, m, v, vo, e);
  }

  lemma {:induction false} FreshEntry(key: Key, offs: nat, size: nat)
    ensures var e := NewEnt(key, offs, size); e.offs == offs && e.size == size && KeyOf(e) == Stored(key)
  {
  }

  lemma {:induction false} StoredLength(b: seq<nat>, b': seq<nat>, m: nat, offs: nat, v: seq<nat>)
    requires StoredBelow(b, b', m, offs, v)
    ensures |b'| == |b|
  {
  }

  lemma {:induction false} AppendedTable(es: seq<Ent>, e: Ent)
    requires Distinct(es)
    ensures TableLen(es + [e]) == TableLen(es) + EntryLen(e.name)
    ensures Distinct(es + [e]) <==> FindKey(es, |es|, KeyOf(e)) == |es|
  {
    var es2 := es + [e];
    assert es2[..|es|] == es;
    var i := FindKey(es, |es|, KeyOf(e));
    if i < |es| {
      assert KeyOf(es2[i]) == KeyOf(es2[|es|]);
    }
  }

  /** With one more entry at the end only its key can be found anew. */
  lemma {:induction false} FindMore(es: seq<Ent>, e: Ent, n: nat, key: Key)
    requires n <= |es|
    ensures FindKey(es + [e], n, key) == if FindKey(es, n, key) < |es| then FindKey(es, n, key) else |es| + 1
  {
    if n > 0 {
      FindMore(es, e, n - 1, key);
      assert (es + [e])[n - 1] == es[n - 1];
    }
  }

  lemma {:induction false} AppendedAll(es: seq<Ent>, b: seq<nat>, b2: seq<nat>, m: nat, v: seq<nat>, vo: nat, e: Ent)
    requires Good(es, |b|, -1) && Tight(es, |b|, m, -1, false) && e.offs == vo && e.size == |v|
    requires StoredBelow(b, b2, m, vo, v)
    ensures forall k ::
              Lookup(es + [e], b2, k) == if k == KeyOf(e) && Lookup(es, b, k) == None then Some(v) else Lookup(es, b, k)
  {
    forall k
      ensures Lookup(es + [e], b2, k) == if k == KeyOf(e) && Lookup(es, b, k) == None then Some(v) else Lookup(es, b, k)
    {
      AppendedAt(es, b, b2, m, v, vo, e, k);
    }
  }

  lemma {:induction false} AppendedAt(es: seq<Ent>, b: seq<nat>, b2: seq<nat>, m: nat, v: seq<nat>, vo: nat, e: Ent,
          k: Key)
    requires Good(es, |b|, -1) && Tight(es, |b|, m, -1, false) && e.offs == vo && e.size == |v|
    requires StoredBelow(b, b2, m, vo, v)
    ensures Lookup(es + [e], b2, k) == if k == KeyOf(e) && Lookup(es, b, k) == None then Some(v) else Lookup(es, b, k)
  {
    StoredThere(e, b, b2, m, vo, v);
    StoredLength(b, b2, m, vo, v);
    FindMore(es, e, |es|, k);
    FoundSize(es, b, k);
    var i := FindKey(es, |es|, k);
    if i < |es| {
      AboveAll(es, |b|, m, -1, i);
      assert Stop(es[i]) <= |b|;
      StoredApart(es[i], b, b2, m, vo, v);
    }
    hide Good, Tight, StoredBelow, Stop;
    assert (es + [e])[..|es|] == es && (es + [e])[|es|] == e;
  }

  /** An attribute removed. */
  lemma {:induction false} Removed(es: seq<Ent>, b: seq<nat>, b1: seq<nat>, m: nat, i: nat, packed: bool)
    requires Good(es, |b|, -1) && Tight(es, |b|, m, -1, packed) && Distinct(es) && i < |es|
    requires Closed(b, b1, m, es[i].offs, Round(es[i].size))
    ensures var r := Shifted(es, es[i].offs, Round(es[i].size)); var es2 := r[..i] + r[i + 1..];
            && Good(es2, |b1|, -1) && Tight(es2, |b1|, m + Round(es[i].size), -1, packed)
            && Distinct(es2) && TableLen(es2) + EntryLen(es[i].name) == TableLen(es)
            && forall k :: Lookup(es2, b1, k) == if k == KeyOf(es[i]) then None else Lookup(es, b, k)
  {
    hide *;
    var r := Shifted(es, es[i].offs, Round(es[i].size));
    var es2 := r[..i] + r[i + 1..];
    SameLength(b, b1, m, es[i].offs, Round(es[i].size));
    TakenOut(es, |b|, m, i, packed);
    CutOut(r, |b|, m + Round(es[i].size), i, packed);
    ValueLenWithout(r, i);
    TableLenSame(es, r);
    NamesCut(es, i);
    Loosened(es, |b|, m, packed);
    RemovedAll(es, b, b1, m, i);
    LookupSame(es, b, es2, b1, KeyOf(es[i]), None);
  }

  lemma {:induction false} RemovedAll(es: seq<Ent>, b: seq<nat>, b1: seq<nat>, m: nat, i: nat)
    requires Good(es, |b|, -1) && Tight(es, |b|, m, -1, false) && i < |es|
    requires Closed(b, b1, m, es[i].offs, Round(es[i].size))
    ensures var r := Shifted(es, es[i].offs, Round(es[i].size)); Carried(es, b, r[..i] + r[i + 1..], b1, KeyOf(es[i]))
  {
    hide Good, Tight, Closed, Round, CarriedAt;
    forall k | 0 <= k < |es| && KeyOf(es[k]) != KeyOf(es[i])
      ensures var r := Shifted(es, es[i].offs, Round(es[i].size)); CarriedAt(es, b, r[..i] + r[i + 1..], b1, k)
    {
      RemovedAt(es, b, b1, m, i, k);
    }
  }

  lemma {:induction false} SameLength(b: seq<nat>, b': seq<nat>, m: nat, from: nat, len: nat)
    requires Closed(b, b', m, from, len)
    ensures |b'| == |b|
  {
  }

  lemma {:induction false} NamesCut(es: seq<Ent>, i: nat)
    requires i < |es| && Distinct(es)
    ensures var r := Shifted(es, es[i].offs, Round(es[i].size)); var es2 := r[..i] + r[i + 1..];
            && Distinct(es2)
            && NoneNew(es, es2, KeyOf(es[i])) && forall b :: Holds(es2, b, KeyOf(es[i]), None)
  {
    var r := Shifted(es, es[i].offs, Round(es[i].size));
    var es2 := r[..i] + r[i + 1..];
    forall j | 0 <= j < |es2|
      ensures KeyOf(es2[j]) == KeyOf(es[if j < i then j else j + 1])
    {
      assert es2[j] == r[if j < i then j else j + 1];
    }
  }

  lemma {:induction false} RemovedAt(es: seq<Ent>, b: seq<nat>, b1: seq<nat>, m: nat, i: nat, k: nat)
    requires Good(es, |b|, -1) && Tight(es, |b|, m, -1, false) && i < |es| && k < |es| && k != i
    requires Closed(b, b1, m, es[i].offs, Round(es[i].size))
    ensures var r := Shifted(es, es[i].offs, Round(es[i].size)); var es2 := r[..i] + r[i + 1..];
            CarriedAt(es, b, es2, b1, k)
  {
    var r := Shifted(es, es[i].offs, Round(es[i].size));
    var es2 := r[..i] + r[i + 1..];
    ValuesKept(es, b, b1, m, i, k);
    assert KeyOf(r[k]) == KeyOf(es[k]);
    hide Good, Tight, Closed, Round, Shifted;
    assert es2[if k < i then k else k - 1] == r[k];
  }

  // ---- values of length zero ----

  /** What ext4_xattr_is_block_valid demands of the offset of an empty value. */
  predicate EmptyOk(e: Ent) {
    e.size == 0 ==> e.offs == 0
  }

  ghost predicate Empties(es: seq<Ent>) {
    forall k {:trigger es[k]} :: 0 <= k < |es| ==> EmptyOk(es[k])
  }

  /** Another attribute has an empty value. */
  ghost predicate OtherEmpty(es: seq<Ent>, b: seq<nat>, key: Key) {
    exists k: Key :: k != key && Lookup(es, b, k) == Some([])
  }

  /** Taking a value out leaves the entries of empty values as they must be if and only if the value
      taken out is empty too, or none of the others is. */
  lemma {:induction false} EmptyShifted(es: seq<Ent>, i: nat)
    requires i < |es| && Empties(es) && (es[i].size > 0 ==> es[i].offs > 0)
    ensures var r := Shifted(es, es[i].offs, Round(es[i].size));
            (forall k {:trigger r[k]} :: 0 <= k < |r| && k != i ==> EmptyOk(r[k])) <==>
            (es[i].size == 0 || forall k {:trigger es[k]} :: 0 <= k < |es| && k != i ==> es[k].size > 0)
  {
    var r := Shifted(es, es[i].offs, Round(es[i].size));
    if es[i].size > 0 {
      if k :| 0 <= k < |es| && k != i && es[k].size == 0 {
        assert EmptyOk(es[k]) && !EmptyOk(r[k]);
      }
    }
  }

  /** With a value of four bytes gone, the empty one beside it is left with an offset of 4. */
  lemma {:induction false} EmptyExample()
    ensures var es := [Ent(1, "a", 1020, 4), Ent(1, "b", 0, 0)];
            Empties(es) && Good(es, 1024, -1) && Shifted(es, 1020, 4)[1] == Ent(1, "b", 4, 0)
                && !Empties(Shifted(es, 1020, 4)[1..])
  {
    var es := [Ent(1, "a", 1020, 4), Ent(1, "b", 0, 0)];
    var r := Shifted(es, 1020, 4)[1..];
    assert r[0] == Ent(1, "b", 4, 0) && !EmptyOk(r[0]);
  }

  lemma {:induction false} EmptyKeys(es: seq<Ent>, b: seq<nat>, i: nat)
    requires Good(es, |b|, -1) && Distinct(es) && i < |es|
    ensures (forall k {:trigger es[k]} :: 0 <= k < |es| && k != i ==> es[k].size > 0)
            <==> !OtherEmpty(es, b, KeyOf(es[i]))
  {
    forall k | 0 <= k < |es| && k != i && es[k].size == 0
      ensures OtherEmpty(es, b, KeyOf(es[i]))
    {
      FoundKey(es, k);
      FoundSize(es, b, KeyOf(es[k]));
      assert Lookup(es, b, KeyOf(es[k])) == Some([]);
    }
    if OtherEmpty(es, b, KeyOf(es[i])) {
      var key :| key != KeyOf(es[i]) && Lookup(es, b, key) == Some([]);
      FoundSize(es, b, key);
      assert es[FindKey(es, |es|, key)].size == 0;
    }
  }

  /** Replacing or removing a value, as far as the empty ones go. */
  lemma {:induction false} EmptyDone(es: seq<Ent>, b: seq<nat>, i: nat, e: Ent)
    requires Good(es, |b|, -1) && Distinct(es) && i < |es| && Empties(es) && (es[i].size > 0 ==> es[i].offs > 0)
             && EmptyOk(e)
    ensures var r := Shifted(es, es[i].offs, Round(es[i].size));
            && (Empties(r[i := e]) <==> (es[i].size == 0 || !OtherEmpty(es, b, KeyOf(es[i]))))
            && (Empties(r[..i] + r[i + 1..]) <==> (es[i].size == 0 || !OtherEmpty(es, b, KeyOf(es[i]))))
  {
    EmptyShifted(es, i);
    EmptyKeys(es, b, i);
    EmptyCut(Shifted(es, es[i].offs, Round(es[i].size)), i, e);
  }

  lemma {:induction false} EmptyCut(r: seq<Ent>, i: nat, e: Ent)
    requires i < |r| && EmptyOk(e)
    ensures Empties(r[i := e]) <==> forall k {:trigger r[k]} :: 0 <= k < |r| && k != i ==> EmptyOk(r[k])
    ensures Empties(r[..i] + r[i + 1..]) <==> forall k {:trigger r[k]} :: 0 <= k < |r| && k != i ==> EmptyOk(r[k])
  {
    forall k | 0 <= k < |r| && k != i
      ensures r[i := e][k] == r[k] && (r[..i] + r[i + 1..])[if k < i then k else k - 1] == r[k]
    {
    }
  }

  // ---- the block as a whole ----

  /** Names as long as a length byte can tell, values within the block and apart, and a table that
      ends below them. */
  ghost predicate SoundAt(first: nat, es: seq<Ent>, end: nat) {
    && Good(es, end, -1)
    && (forall i {:trigger es[i]} :: 0 <= i < |es| ==> |es[i].name| <= 255)
    && first + TableLen(es) + 4 <= MinOffs(es, |es|, end)
  }

  /** Every entry with its name ends before the next one begins, and the end mark of four bytes behind the
      last one before all values. */
  lemma {:induction false} EntryPlace(first: nat, es: seq<Ent>, end: nat, k: nat)
    requires SoundAt(first, es, end) && k < |es|
    ensures var at, next := first + TableLen(es[..k]), first + TableLen(es[..k + 1]);
            && at + 16 + |es[k].name| <= next < at + 16 + |es[k].name| + 4 && (next - at) % 4 == 0
            && next <= first + TableLen(es)
    ensures forall j {:trigger es[j]} :: 0 <= j < |es| && es[j].size > 0 ==> first + TableLen(es) + 4 <= es[j].offs
  {
    MinBelow(es, |es|, end);
    assert es[..k + 1][..k] == es[..k];
    TableGrows(es, k + 1);
  }

  lemma {:induction false} TableGrows(es: seq<Ent>, k: nat)
    requires k <= |es|
    ensures TableLen(es[..k]) <= TableLen(es)
    decreases |es|
  {
    if k == |es| {
      assert es[..k] == es;
    } else {
      assert es[..|es| - 1][..k] == es[..k];
      TableGrows(es[..|es| - 1], k);
    }
  }

  /** In a block of 1024 bytes without attributes there are 988 for the first one: a value of 968 bytes under
      a name of four characters is the largest that fits. */
  lemma {:induction false} SpaceExample(b: seq<nat>, v: seq<nat>)
    requires |b| == 1024
    ensures var key := Key(1, "user");
            && SoundAt(32, [], 1024) && PackedAt([], 1024) && Free(32, [], b, key) == 988
            && (Free(32, [], b, key) < Round(|v|) + EntryLen(key.name) <==> |v| > 968)
            && (Needed(32, [], key, v) > 1024 <==> |v| > 968)
  {
    assert Others([], Key(1, "user")) == [];
  }

  /** No gaps between the values. */
  ghost predicate PackedAt(es: seq<Ent>, end: nat) {
    Tight(es, end, MinOffs(es, |es|, end), -1, true)
  }

  lemma {:induction false} LowestTight(es: seq<Ent>, end: nat)
    ensures Tight(es, end, MinOffs(es, |es|, end), -1, PackedAt(es, end))
  {
    MinBelow(es, |es|, end);
  }

  lemma {:induction false} LowestIs(es: seq<Ent>, end: nat, m: nat, packed: bool, first: nat)
    requires Good(es, end, -1) && Tight(es, end, m, -1, packed) && first + TableLen(es) + 4 <= m
    requires forall i {:trigger es[i]} :: 0 <= i < |es| ==> |es[i].name| <= 255
    ensures SoundAt(first, es, end) && (packed ==> PackedAt(es, end))
  {
    hide Tight, Good, TableLen, MinOffs;
    MinIs(es, end, m, packed);
  }

  /** No entry has a name that its length byte could not tell. */
  lemma {:induction false} TooLong(first: nat, es: seq<Ent>, b: seq<nat>, key: Key)
    requires SoundAt(first, es, |b|) && |key.name| > 255
    ensures Lookup(es, b, key) == None
  {
  }

  lemma {:induction false} FreeIs(first: nat, es: seq<Ent>, b: seq<nat>, key: Key)
    requires Good(es, |b|, -1)
    ensures var i := FindKey(es, |es|, key);
            && Free(first, es, b, key) == MinOffs(es, |es|, |b|) - (first + TableLen(es)) - 4
                                          + (if i < |es| then Round(es[i].size) + EntryLen(es[i].name) else 0)
            && (i < |es| ==> Lookup(es, b, key).Some? && es[i].name == key.name
                             && (es[i].size > 0 <==> Lookup(es, b, key) != Some([])))
            && (i == |es| ==> Lookup(es, b, key) == None)
  {
    FoundSize(es, b, key);
  }

  lemma {:induction false} StoredNow(b: seq<nat>, b': seq<nat>, m: nat, offs: nat, v: seq<nat>)
    requires |b'| == |b| && m <= |b| && Round(|v|) <= m && offs == (if |v| > 0 then m - Round(|v|) else 0)
    requires if offs != 0 then SameOutside(b, b', offs, offs + Round(|v|)) && b'[offs..offs + |v|] == v
             else b' == b && |v| == 0
    ensures StoredBelow(b, b', m, offs, v)
  {
  }

  lemma {:induction false} FreePacked(first: nat, es: seq<Ent>, b: seq<nat>, key: Key, v: seq<nat>)
    requires SoundAt(first, es, |b|) && PackedAt(es, |b|)
    ensures Free(first, es, b, key) < Round(|v|) + EntryLen(key.name) <==> Needed(first, es, key, v) > |b|
  {
    FreeExact(first, es, b, MinOffs(es, |es|, |b|), key, v);
  }

  /** A name of 256 characters is stored with the length 0. Its value is not found under it, but under
      the empty name. */
  lemma {:induction false} LongNameExample(b: seq<nat>)
    requires |b| == 1024
    ensures var key := Key(1, seq(256, _ => 'a')); var es := [NewEnt(key, 1020, 1)];
            && SoundAt(32, es, 1024) && Distinct(es) && Empties(es)
            && Lookup(es, b, key) == None && Lookup(es, b, Key(1, "")) == Some([b[1020]])
  {
    var key := Key(1, seq(256, _ => 'a'));
    var es := [NewEnt(key, 1020, 1)];
    assert Stored(key).name == "" && es[0] == Ent(1, "", 1020, 1);
    assert es[..0] == [] && TableLen(es) == TableLen(es[..0]) + EntryLen("") && MinOffs(es, 0, 1024) == 1024;
    assert FindKey(es, 0, key) == 1 && FindKey(es, 0, Key(1, "")) == 1;
    assert Value(es[0], b) == [b[1020]];
  }

  lemma {:induction false} ReplacedDone(first: nat, es: seq<Ent>, b: seq<nat>, b1: seq<nat>, b2: seq<nat>, m: nat,
          i: nat, v: seq<nat>, vo: nat)
    requires SoundAt(first, es, |b|) && Distinct(es) && Empties(es) && i < |es| && m == MinOffs(es, |es|, |b|)
    requires Closed(b, b1, m, es[i].offs, Round(es[i].size)) && StoredBelow(b1, b2, m + Round(es[i].size), vo, v)
    requires first + TableLen(es) + 4 + Round(|v|) <= m + Round(es[i].size)
    ensures var es2 := Shifted(es, es[i].offs, Round(es[i].size))[i := es[i].(offs := vo, size := |v|)];
            && SoundAt(first, es2, |b2|) && Distinct(es2) && (PackedAt(es, |b|) ==> PackedAt(es2, |b2|))
            && (Empties(es2) <==> (es[i].size == 0 || !OtherEmpty(es, b, KeyOf(es[i]))))
            && forall k :: Lookup(es2, b2, k) == if k == KeyOf(es[i]) then Some(v) else Lookup(es, b, k)
  {
    var es2 := Shifted(es, es[i].offs, Round(es[i].size))[i := es[i].(offs := vo, size := |v|)];
    var packed := PackedAt(es, |b|);
    ValueOffset(first, es, |b|, i);
    hide *;
    LowestTight(es, |b|);
    Replaced(es, b, b1, b2, m, i, v, vo, packed);
    StoredEmpty(b1, b2, m + Round(es[i].size), vo, v, es[i]);
    EmptyDone(es, b, i, es[i].(offs := vo, size := |v|));
    SameKey(es[i], vo, |v|);
    NamesKept(es, i, es[i].(offs := vo, size := |v|));
    LowestIs(es2, |b2|, m + Round(es[i].size) - Round(|v|), packed, first);
  }

  /** What is known about one entry. */
  lemma {:induction false} ValueOffset(first: nat, es: seq<Ent>, end: nat, i: nat)
    requires SoundAt(first, es, end) && i < |es|
    ensures Good(es, end, -1) && Stop(es[i]) <= end && (es[i].size > 0 ==> 0 < MinOffs(es, |es|, end) <= es[i].offs)
    ensures forall k {:trigger es[k]} :: 0 <= k < |es| ==> |es[k].name| <= 255
  {
    hide TableLen, MinOffs;
    MinBelow(es, |es|, end);
  }

  lemma {:induction false} StoredEmpty(b: seq<nat>, b': seq<nat>, m: nat, vo: nat, v: seq<nat>, e: Ent)
    requires StoredBelow(b, b', m, vo, v)
    ensures EmptyOk(e.(offs := vo, size := |v|))
  {
  }

  lemma {:induction false} RemovedDone(first: nat, es: seq<Ent>, b: seq<nat>, b1: seq<nat>, m: nat, i: nat)
    requires SoundAt(first, es, |b|) && Distinct(es) && Empties(es) && i < |es| && m == MinOffs(es, |es|, |b|)
    requires Closed(b, b1, m, es[i].offs, Round(es[i].size))
    ensures var r := Shifted(es, es[i].offs, Round(es[i].size)); var es2 := r[..i] + r[i + 1..];
            && SoundAt(first, es2, |b1|) && Distinct(es2) && (PackedAt(es, |b|) ==> PackedAt(es2, |b1|))
            && (Empties(es2) <==> (es[i].size == 0 || !OtherEmpty(es, b, KeyOf(es[i]))))
            && forall k :: Lookup(es2, b1, k) == if k == KeyOf(es[i]) then None else Lookup(es, b, k)
  {
    var r := Shifted(es, es[i].offs, Round(es[i].size));
    var es2 := r[..i] + r[i + 1..];
    var packed := PackedAt(es, |b|);
    ValueOffset(first, es, |b|, i);
    assert first + TableLen(es) + 4 <= m;
    CutNames(es, i);
    hide *;
    LowestTight(es, |b|);
    Removed(es, b, b1, m, i, packed);
    NoValue();
    EmptyDone(es, b, i, Ent(0, "", 0, 0));
    LowestIs(es2, |b1|, m + Round(es[i].size), packed, first);
  }

  lemma {:induction false} CutNames(es: seq<Ent>, i: nat)
    requires i < |es| && forall k {:trigger es[k]} :: 0 <= k < |es| ==> |es[k].name| <= 255
    ensures var r := Shifted(es, es[i].offs, Round(es[i].size)); var es2 := r[..i] + r[i + 1..];
            forall k {:trigger es2[k]} :: 0 <= k < |es2| ==> |es2[k].name| <= 255
  {
    var r := Shifted(es, es[i].offs, Round(es[i].size));
    var es2 := r[..i] + r[i + 1..];
    forall k | 0 <= k < |es2|
      ensures |es2[k].name| <= 255
    {
      assert es2[k] == r[if k < i then k else k + 1];
    }
  }

  lemma {:induction false} NoValue()
    ensures EmptyOk(Ent(0, "", 0, 0))
  {
  }

  lemma {:induction false} AppendedDone(first: nat, es: seq<Ent>, b: seq<nat>, b2: seq<nat>, m: nat, key: Key,
          v: seq<nat>, vo: nat)
    requires SoundAt(first, es, |b|) && Distinct(es) && Empties(es) && m == MinOffs(es, |es|, |b|)
    requires StoredBelow(b, b2, m, vo, v) && first + TableLen(es) + 4 + Round(|v|) + EntryLen(key.name) <= m
    ensures var es2 := es + [NewEnt(key, vo, |v|)];
            && SoundAt(first, es2, |b2|) && (PackedAt(es, |b|) ==> PackedAt(es2, |b2|)) && Empties(es2)
            && (Distinct(es2) <==> Lookup(es, b, Stored(key)) == None)
            && forall k ::
                 Lookup(es2, b2, k) == if k == Stored(key) && Lookup(es, b, k) == None then Some(v)
                                       else Lookup(es, b, k)
  {
    var e := NewEnt(key, vo, |v|);
    var es2 := es + [e];
    var packed := PackedAt(es, |b|);
    assert Good(es, |b|, -1);
    assert EmptyOk(e);
    assert Empties(es2) by {
      assert forall k :: 0 <= k < |es| ==> EmptyOk(es[k]);
    }
    assert forall k :: 0 <= k < |es2| ==> |es2[k].name| <= 255;
    hide *;
    LowestTight(es, |b|);
    Appended(es, b, b2, m, key, v, vo, packed);
    LowestIs(es2, |b2|, m - Round(|v|), packed, first);
  }

  class Attributes {
    /** Where the table begins. */
    const first: nat
    const buf: array<nat>
    var entries: seq<Ent>

    ghost predicate Sound()
      reads this, buf
    {
      SoundAt(first, entries, buf.Length)
    }

    /** What ext4_xattr_is_block_valid looks at, and that names are unique and values apart. */
    ghost predicate Valid()
      reads this, buf
    {
      Sound() && Distinct(entries) && Empties(entries)
    }

    ghost predicate Packed()
      reads this, buf
    {
      PackedAt(entries, buf.Length)
    }

    ghost function Get(key: Key): Option<seq<nat>>
      reads this, buf
    {
      Lookup(entries, buf[..], key)
    }

    /** memmove to a higher address, and memset with zeros. */
    method MoveUp(src: nat, n: nat, len: nat)
      requires src + n + len <= buf.Length
      modifies buf
      ensures Closed(old(buf[..]), buf[..], src, src + n, len)
    {
      var i := n;
      while i > 0
        invariant 0 <= i <= n
        invariant forall x :: 0 <= x < buf.Length && (x < src + i + len || src + n + len <= x) ==> buf[x] == old(buf[x])
        invariant forall x :: src + i + len <= x < src + n + len ==> buf[x] == old(buf[x - len])
      {
        i := i - 1;
        buf[src + len + i] := buf[src + i];
      }
      i := 0;
      while i < len
        invariant 0 <= i <= len
        invariant forall x :: src <= x < src + i ==> buf[x] == 0
        invariant forall x :: 0 <= x < buf.Length && (x < src || src + n + len <= x) ==> buf[x] == old(buf[x])
        invariant forall x :: src + len <= x < src + n + len ==> buf[x] == old(buf[x - len])
      {
        buf[src + i] := 0;
        i := i + 1;
      }
    }

    /** memcpy of a value, with its padding cleared. */
    method Store(offs: nat, v: seq<nat>)
      requires offs + Round(|v|) <= buf.Length
      modifies buf
      ensures SameOutside(old(buf[..]), buf[..], offs, offs + Round(|v|)) && buf[offs..offs + |v|] == v
    {
      var i := 0;
      while i < Round(|v|)
        invariant 0 <= i <= Round(|v|)
        invariant forall x :: 0 <= x < buf.Length && (x < offs || offs + i <= x) ==> buf[x] == old(buf[x])
        invariant forall k :: 0 <= k < i && k < |v| ==> buf[offs + k] == v[k]
      {
        buf[offs + i] := if i < |v| then v[i] else 0;
        i := i + 1;
      }
    }

    /** Searches the table: ext4_xattr_find_entry. */
    method FindEntry(key: Key) returns (found: bool, i: nat)
      requires Sound()
      ensures found == Get(key).Some?
      ensures found ==> i < |entries| && KeyOf(entries[i]) == key
                        && Get(key) == Some(buf[entries[i].offs..entries[i].offs + entries[i].size])
      ensures !found ==> forall k :: 0 <= k < |entries| ==> KeyOf(entries[k]) != key
      ensures FindKey(entries, |entries|, key) == if found then i else |entries|
    {
      hide Tight, TableLen, MinOffs;
      i := 0;
      while i < |entries|
        invariant 0 <= i <= |entries| && FindKey(entries, i, key) == |entries|
      {
        if |entries[i].name| == |key.name| && entries[i].index == key.index && entries[i].name == key.name {
          FoundFirst(entries, i, key);
          assert Stop(entries[i]) <= buf.Length;
          return true, i;
        }
        i := i + 1;
      }
      found := false;
    }

    /** The bytes of an attribute's value are taken out, and the offsets of the values below follow. */
    method TakeOut(i: nat, minOffs: nat)
      requires Good(entries, buf.Length, -1) && Tight(entries, buf.Length, minOffs, -1, false) && 0 < minOffs
      requires i < |entries| && EmptyOk(entries[i])
      modifies this`entries, buf
      ensures Closed(old(buf[..]), buf[..], minOffs, old(entries)[i].offs, Round(old(entries)[i].size))
      ensures entries == Shifted(old(entries), old(entries)[i].offs, Round(old(entries)[i].size))
    {
      var valueOffs, valueSize := entries[i].offs, Round(entries[i].size);
      if valueOffs != 0 {
        assert minOffs <= valueOffs && Stop(entries[i]) <= buf.Length;
        MoveUp(minOffs, valueOffs - minOffs, valueSize);
      }
      var k := 0;
      while k < |entries|
        modifies this`entries
        invariant 0 <= k <= |entries| == |old(entries)|
        invariant forall j {:trigger entries[j]} :: 0 <= j < |entries| ==>
                    entries[j] == if j < k && old(entries)[j].offs < valueOffs
                                  then old(entries)[j].(offs := old(entries)[j].offs + valueSize) else old(entries)[j]
      {
        var offs := entries[k].offs;
        if offs < valueOffs {
          entries := entries[k := entries[k].(offs := offs + valueSize)];
        }
        k := k + 1;
      }
    }

    /** Computes where the values begin and the table ends. */
    method Extent() returns (minOffs: nat, last: nat)
      ensures minOffs == MinOffs(entries, |entries|, buf.Length) && last == first + TableLen(entries)
    {
      minOffs, last := buf.Length, first;
      var k := 0;
      Begin(entries, buf.Length);
      while k < |entries|
        invariant 0 <= k <= |entries|
        invariant minOffs == MinOffs(entries, k, buf.Length) && last == first + TableLen(entries[..k])
      {
        NextEntry(entries, k, buf.Length);
        if entries[k].size != 0 && entries[k].offs < minOffs {
          minOffs := entries[k].offs;
        }
        last := last + EntryLen(entries[k].name);
        k := k + 1;
      }
      assert entries[..k] == entries;
    }

    /** Sets or removes an attribute: ext4_xattr_set_entry after ext4_xattr_find_entry. */
    method SetEntry(key: Key, value: Option<seq<nat>>, dryRun: bool) returns (err: Err)
      requires Valid()
      modifies this`entries, buf
      ensures err ==
              if value.Some? && old(Free(first, entries, buf[..], key)) < Round(|value.value|) + EntryLen(key.name)
                     then ENOSPC else EOK
      ensures old(Packed()) ==>
                (err == ENOSPC <==> value.Some? && Needed(first, old(entries), key, value.value) > buf.Length)
      ensures err == ENOSPC || dryRun ==> entries == old(entries) && buf[..] == old(buf[..])
      ensures err == EOK && !dryRun && |key.name| <= 255 ==>
              forall k :: Get(k) == if k == key then value else old(Get(k))
      ensures err == EOK && !dryRun && |key.name| > 255 ==>
                forall k :: Get(k) == if k == Stored(key) && old(Get(k)) == None then value else old(Get(k))
      ensures err == EOK && !dryRun && value.Some? ==> (Get(key) == value <==> |key.name| <= 255)
      ensures Sound() && (old(Packed()) ==> Packed())
      ensures Distinct(entries) <==>
                !(err == EOK && !dryRun && value.Some? && |key.name| > 255 && old(Get(Stored(key))).Some?)
      ensures Empties(entries) <==>
                !(err == EOK && !dryRun && old(Get(key)).Some? && old(Get(key)) != Some([])
                  && old(OtherEmpty(entries, buf[..], key)))
    {
      hide Good, Tight, Closed, Distinct, TableLen, Lookup, MinOffs, FindKey, OtherEmpty, SameOutside, PackedAt, Round,
          Needed, Stored, EntryLen, Free, StoredBelow;
      var found, here := FindEntry(key);
      ghost var es, b, m := entries, buf[..], MinOffs(entries, |entries|, buf.Length);
      FreeIs(first, es, b, key);
      LowestTight(es, |b|);
      Loosened(es, |b|, m, PackedAt(es, |b|));
      if value.Some? && Packed() {
        FreePacked(first, es, b, key, value.value);
      }
      if |key.name| > 255 {
        TooLong(first, es, b, key);
      }
      if found {
        ValueOffset(first, es, |b|, here);
      }
      if value.None? && !found {
        return EOK;
      }
      var minOffs, last := Extent();
      if value.Some? {
        var free := minOffs - last - 4 + if found then Round(entries[here].size) + EntryLen(entries[here].name) else 0;
        if free < Round(|value.value|) + EntryLen(key.name) {
          return ENOSPC;
        }
      }
      if dryRun {
        return EOK;
      }
      if found {
        TakeOut(here, minOffs);
        minOffs := minOffs + Round(entries[here].size);
      }
      ghost var b1 := buf[..];
      if value.Some? {
        var v := value.value;
        var valueOffs: nat := if |v| > 0 then minOffs - Round(|v|) else 0;
        if found {
          entries := entries[here := entries[here].(offs := valueOffs, size := |v|)];
        } else {
          entries := entries + [NewEnt(key, valueOffs, |v|)];
        }
        if valueOffs != 0 {
          Store(valueOffs, v);
        }
        StoredNow(b1, buf[..], minOffs, valueOffs, v);
        if found {
          ReplacedDone(first, es, b, b1, buf[..], m, here, v, valueOffs);
        } else {
          AppendedDone(first, es, b, buf[..], m, key, v, valueOffs);
        }
      } else {
        entries := entries[..here] + entries[here + 1..];
        RemovedDone(first, es, b, buf[..], m, here);
      }
      return EOK;
    }
  }

  lemma {:induction false} FoundFirst(es: seq<Ent>, i: nat, key: Key)
    requires i < |es| && FindKey(es, i, key) == |es| && KeyOf(es[i]) == key
    ensures FindKey(es, |es|, key) == i
  {
    FindOn(es, i, |es|, key);
  }

  lemma {:induction false} FindOn(es: seq<Ent>, i: nat, n: nat, key: Key)
    requires i < n <= |es| && FindKey(es, i, key) == |es| && KeyOf(es[i]) == key
    ensures FindKey(es, n, key) == i
    decreases n
  {
    if i + 1 < n {
      FindOn(es, i, n - 1, key);
    }
  }

  lemma {:induction false} Begin(es: seq<Ent>, end: nat)
    ensures MinOffs(es, 0, end) == end && TableLen(es[..0]) == 0
  {
  }

  lemma {:induction false} NextEntry(es: seq<Ent>, k: nat, end: nat)
    requires k < |es|
    ensures TableLen(es[..k + 1]) == TableLen(es[..k]) + EntryLen(es[k].name)
    ensures MinOffs(es, k + 1, end) == if es[k].size != 0 && es[k].offs < MinOffs(es, k, end) then es[k].offs
                                       else MinOffs(es, k, end)
  {
    assert es[..k + 1][..k] == es[..k];
  }
}
