/** Exchanging two adjacent blocks of arguments in place, cycle by cycle: gcd and permute_args of
    lwext4/include/getopt.h. */
module Getopt {
  // ---- the greatest common divisor ----

  /** One division step keeps writing v as a combination of the two remainders. */
  lemma {:induction false} Combined(v: nat, p: nat, q: nat, a: nat, b: nat) returns (p': nat)
    requires v == p * a + q * b && b > 0
    ensures v == p' * b + p * (a % b)
  {
    var k := a / b;
    Divided(a, b);
    assert p * k >= 0;
    p' := p * k + q;
    calc {
      v;
      p * (k * b + a % b) + q * b;
      p * (k * b) + p * (a % b) + q * b;
      { assert p * (k * b) == (p * k) * b; }
      p' * b + p * (a % b);
    }
  }

  lemma {:induction false} Divided(a: nat, b: nat)
    requires b > 0
    ensures a == (a / b) * b + a % b && a / b >= 0
  {
  }

  /** ... and it keeps the remainders combinations of the two numbers. */
  lemma {:induction false} Reduced(a0: int, b0: int, a: nat, b: nat, xa: int, ya: int, xb: int, yb: int)
    returns (x: int, y: int)
    requires a == xa * a0 + ya * b0 && b == xb * a0 + yb * b0 && b > 0
    ensures a % b == x * a0 + y * b0
  {
    var k := a / b;
    Divided(a, b);
    x, y := xa - k * xb, ya - k * yb;
    calc {
      a % b;
      a - k * b;
      xa * a0 + ya * b0 - k * (xb * a0 + yb * b0);
      xa * a0 + ya * b0 - ((k * xb) * a0 + (k * yb) * b0);
      x * a0 + y * b0;
    }
  }

  ghost predicate Combines(g: int, a: int, b: int, x: int, y: int) {
    g == x * a + y * b
  }

  /** Euclid's algorithm. g divides both numbers (ka and kb times), and being a combination of them
      no common divisor is larger. */
  method Gcd(a: nat, b: nat) returns (g: nat, ghost ka: nat, ghost kb: nat, ghost x: int, ghost y: int)
    requires b > 0
    ensures g > 0 && a == Mul(ka, g) && b == Mul(kb, g) && Combines(g, a, b, x, y)
  {
    var u, w := a, b;
    var c := u % w;
    ghost var xu, yu;
    ghost var pa: nat, qa: nat, pb: nat, qb: nat := 1, 0, 0, 1;
    xu, yu, x, y := 1, 0, 0, 1;
    while c != 0
      invariant w > 0 && c == u % w
      invariant a == pa * u + qa * w && b == pb * u + qb * w
      invariant u == xu * a + yu * b && w == x * a + y * b
      decreases c
    {
      ghost var p := Combined(a, pa, qa, u, w);
      pa, qa := p, pa;
      p := Combined(b, pb, qb, u, w);
      pb, qb := p, pb;
      ghost var nx, ny := Reduced(a, b, u, w, xu, yu, x, y);
      xu, yu, x, y := x, y, nx, ny;
      u := w;
      w := c;
      c := u % w;
    }
    g := w;
    ka := Combined(a, pa, qa, u, w);
    kb := Combined(b, pb, qb, u, w);
  }

  // ---- one cycle ----

  /** Two lengths without a common divisor. */
  ghost predicate Bezout(n: nat, m: nat, x: int, y: int) {
    x * n + y * m == 1
  }

  function Mul(a: nat, b: nat): nat {
    a * b
  }

  function Quot(a: nat, b: nat): nat
    requires b > 0
  {
    a / b
  }

  /** c and j steps of m, modulo l, with w wraps. */
  ghost function Line(c: int, m: int, j: int, l: int, w: int): int {
    c + j * m - w * l
  }

  /** Where the element at p goes when blocks of n and m elements are exchanged. */
  function Step(n: nat, m: nat, p: nat): (q: nat)
    requires p < n + m
    ensures q < n + m
  {
    if p >= n then p - n else p + m
  }

  /** Where the element that ends up at p comes from. */
  function From(n: nat, m: nat, p: nat): (q: nat)
    requires p < n + m
    ensures q < n + m && Step(n, m, q) == p
  {
    if p >= m then p - m else p + n
  }

  function Walk(n: nat, m: nat, c: nat, j: nat): (q: nat)
    requires c < n + m
    ensures q < n + m
  {
    if j == 0 then c else Step(n, m, Walk(n, m, c, j - 1))
  }

  /** How often the walk wrapped around. */
  ghost function Wraps(n: nat, m: nat, c: nat, j: nat): nat
    requires c < n + m
  {
    if j == 0 then 0 else Wraps(n, m, c, j - 1) + if Walk(n, m, c, j - 1) >= n then 1 else 0
  }

  lemma {:induction false} WalkAt(n: nat, m: nat, c: nat, j: nat)
    requires c < n + m
    ensures Walk(n, m, c, j) == Line(c, m, j, n + m, Wraps(n, m, c, j))
  {
    if j > 0 {
      WalkAt(n, m, c, j - 1);
      OneStep(n, m, j, Wraps(n, m, c, j - 1));
    }
  }

  lemma {:induction false} OneStep(n: nat, m: nat, j: nat, k: nat)
    requires j > 0
    ensures j * m == (j - 1) * m + m && (k + 1) * (n + m) == k * (n + m) + (n + m)
  {
  }

  lemma {:induction false} SmallMultiple(k: int, l: int)
    requires -l < k * l < l
    ensures k == 0
  {
    Bounds(k, l);
  }

  lemma {:induction false} Bounds(k: int, l: int)
    requires l >= 0
    ensures k >= 1 ==> k * l >= l
    ensures k <= -1 ==> k * l <= -l
  {
    if k >= 1 {
      assert (k - 1) * l >= 0;
    } else if k <= -1 {
      assert (k + 1) * l <= 0;
    }
  }

  /** After d steps and some wraps at the same place: d is a multiple of the whole round. */
  lemma {:induction false} RoundsOnly(n: nat, m: nat, x: int, y: int, d: int, w: int)
    requires Bezout(n, m, x, y) && d * m == w * (n + m)
    ensures d == ((y - x) * w + x * d) * (n + m)
  {
    var l := n + m;
    calc {
      ((y - x) * w + x * d) * l;
      (y - x) * (w * l) + x * d * l;
      (y - x) * (d * m) + x * d * (n + m);
      d * (x * n + y * m);
      d;
    }
  }

  lemma {:induction false} Difference(c: int, m: int, j: int, k: int, l: int, u: int, w: int)
    requires c + j * m - u * l == c + k * m - w * l
    ensures (k - j) * m == (w - u) * l
  {
  }

  lemma {:induction false} Whole(m: int, k: int, l: int)
    ensures l * m - k * l == (m - k) * l
  {
  }

  lemma {:induction false} Placed(c: int, q: int, j: int, m: int, e: int, w: int, l: int)
    requires q - c == j * m + e * l
    ensures q - (c + j * m - w * l) == (e + w) * l
  {
  }

  /** With coprime blocks the walk comes back to its start only after a whole round. */
  lemma {:induction false} WalkDistinct(n: nat, m: nat, c: nat, x: int, y: int, j: nat, k: nat)
    requires c < n + m && Bezout(n, m, x, y) && j < k < j + n + m
    ensures Walk(n, m, c, j) != Walk(n, m, c, k)
  {
    hide *;
    WalkAt(n, m, c, j);
    WalkAt(n, m, c, k);
    LineApart(n, m, c, x, y, j, Wraps(n, m, c, j), k, Wraps(n, m, c, k));
  }

  lemma {:induction false} LineApart(n: nat, m: nat, c: nat, x: int, y: int, j: nat, u: int, k: nat, w: int)
    requires Bezout(n, m, x, y) && j < k < j + n + m
    ensures Line(c, m, j, n + m, u) != Line(c, m, k, n + m, w)
  {
    if Line(c, m, j, n + m, u) == Line(c, m, k, n + m, w) {
      Difference(c, m, j, k, n + m, u, w);
      hide *;
      RoundsOnly(n, m, x, y, k - j, w - u);
      SmallMultiple((y - x) * (w - u) + x * (k - j), n + m);
    }
  }

  lemma {:induction false} LineClosed(c: nat, m: nat, l: nat, w: int, q: nat)
    requires c < l && q < l && q == Line(c, m, l, l, w)
    ensures q == c
  {
    Whole(m, w, l);
    SmallMultiple(m - w, l);
  }

  lemma {:induction false} WalkCloses(n: nat, m: nat, c: nat)
    requires c < n + m
    ensures Walk(n, m, c, n + m) == c
  {
    var l := n + m;
    hide Walk, Wraps;
    WalkAt(n, m, c, l);
    LineClosed(c, m, l, Wraps(n, m, c, l), Walk(n, m, c, l));
  }

  lemma {:induction false} LineReaches(n: nat, m: nat, c: nat, x: int, y: int, q: nat) returns (j: nat, e: int)
    requires c < n + m && q < n + m && Bezout(n, m, x, y)
    ensures j < n + m && Reaches(q - c, j, m, e, n + m)
  {
    var s;
    j, s := DivMod((q - c) * (y - x), n + m);
    ReachSum(n, m, x, y, q - c, j, s);
    e := (q - c) * x + s * m;
  }

  ghost predicate Reaches(d: int, j: int, m: int, e: int, l: int) {
    d == j * m + e * l
  }

  lemma {:induction false} LineSame(n: nat, m: nat, c: nat, q: nat, j: nat, e: int, w: int, p: nat)
    requires q < n + m && p < n + m && p == Line(c, m, j, n + m, w) && Reaches(q - c, j, m, e, n + m)
    ensures p == q
  {
    Placed(c, q, j, m, e, w, n + m);
    SmallMultiple(e + w, n + m);
  }

  lemma {:induction false} WalkStarts(n: nat, m: nat, c: nat)
    requires c < n + m
    ensures Walk(n, m, c, 0) == c
  {
  }

  /** Every position is reached within one round. */
  lemma {:induction false} WalkReaches(n: nat, m: nat, c: nat, x: int, y: int, q: nat) returns (j: nat)
    requires c < n + m && q < n + m && Bezout(n, m, x, y)
    ensures 1 <= j <= n + m && Walk(n, m, c, j) == q
  {
    hide *;
    var l := n + m;
    var e;
    j, e := LineReaches(n, m, c, x, y, q);
    WalkAt(n, m, c, j);
    LineSame(n, m, c, q, j, e, Wraps(n, m, c, j), Walk(n, m, c, j));
    if j == 0 {
      j := l;
      WalkStarts(n, m, c);
      WalkCloses(n, m, c);
    }
  }

  lemma {:induction false} DivMod(t: int, l: nat) returns (j: nat, s: int)
    requires l > 0
    ensures j < l && t == j + s * l
  {
    j, s := t % l, t / l;
  }

  lemma {:induction false} ReachSum(n: nat, m: nat, x: int, y: int, e: int, j: int, s: int)
    requires Bezout(n, m, x, y) && e * (y - x) == j + s * (n + m)
    ensures e == j * m + (e * x + s * m) * (n + m)
  {
    calc {
      j * m + (e * x + s * m) * (n + m);
      (j + s * (n + m)) * m + e * x * (n + m);
      e * (y - x) * m + e * x * (n + m);
      e * (x * n + y * m);
      e;
    }
  }

  lemma {:induction false} FromStep(n: nat, m: nat, q: nat)
    requires q < n + m
    ensures From(n, m, Step(n, m, q)) == q
  {
  }

  // ---- positions that are g apart ----

  /** The q-th position of cycle i, when cycles are g apart and begin at s. */
  function Pos(s: nat, g: nat, i: nat, q: nat): nat {
    s + q * g + i
  }

  lemma {:induction false} PosOnly(s: nat, g: nat, i: nat, q: nat, k: nat, r: nat)
    requires i < g && k < g && Pos(s, g, i, q) == Pos(s, g, k, r)
    ensures i == k && q == r
  {
    Whole(q, r, g);
    assert (q - r) * g == k - i;
    SmallMultiple(q - r, g);
  }

  lemma {:induction false} PosBelow(s: nat, g: nat, i: nat, q: nat, l: nat)
    requires i < g && q < l
    ensures s <= Pos(s, g, i, q) < s + Mul(l, g)
  {
    Bounds(l - q, g);
    assert l * g == q * g + (l - q) * g;
  }

  /** Comparing with the middle, and one step, in whole cycles. */
  lemma {:induction false} PosStep(s: nat, g: nat, i: nat, q: nat, n: nat, m: nat)
    requires i < g && q < n + m
    ensures Pos(s, g, i, q) >= s + Mul(n, g) <==> q >= n
    ensures Pos(s, g, i, Step(n, m, q)) == Pos(s, g, i, q) + if q >= n then 0 - Mul(n, g) else Mul(m, g)
  {
    if q < n {
      PosBelow(s, g, i, q, n);
      assert (q + m) * g == q * g + m * g;
    } else {
      Bounds(q - n + 1, g);
      assert q * g == (q - n) * g + n * g;
    }
  }

  /** The q-th position of cycle k holds the element that belongs there. */
  ghost predicate Done<T>(orig: seq<T>, b: seq<T>, s: nat, g: nat, n: nat, m: nat, k: nat, q: nat)
    requires q < n + m
  {
    && Pos(s, g, k, q) < |b| && Pos(s, g, k, From(n, m, q)) < |orig|
    && b[Pos(s, g, k, q)] == orig[Pos(s, g, k, From(n, m, q))]
  }

  /** ... holds what it held at first. */
  ghost predicate Kept<T>(orig: seq<T>, b: seq<T>, s: nat, g: nat, k: nat, q: nat) {
    Pos(s, g, k, q) < |b| == |orig| && b[Pos(s, g, k, q)] == orig[Pos(s, g, k, q)]
  }

  ghost predicate Outside<T>(orig: seq<T>, b: seq<T>, from: nat, to: nat) {
    |b| == |orig| && from <= to <= |b| && b[..from] == orig[..from] && b[to..] == orig[to..]
  }

  /** The cycles before i have been turned. */
  ghost predicate Turned<T>(orig: seq<T>, b: seq<T>, s: nat, g: nat, n: nat, m: nat, i: nat) {
    && Outside(orig, b, s, s + Mul(n + m, g))
    && (forall k: nat, q: nat :: k < i && q < n + m ==> Done(orig, b, s, g, n, m, k, q))
    && (forall k: nat, q: nat :: i <= k < g && q < n + m ==> Kept(orig, b, s, g, k, q))
  }

  /** In cycle i after j of its swaps: the start is where the next element waits. */
  ghost predicate Turning<T>(orig: seq<T>, b: seq<T>, s: nat, g: nat, n: nat, m: nat, i: nat, j: nat)
    requires m > 0
  {
    && i < g && j <= n + m && Outside(orig, b, s, s + Mul(n + m, g))
    && (forall k: nat, q: nat :: k < i && q < n + m ==> Done(orig, b, s, g, n, m, k, q))
    && (forall k: nat, q: nat :: i < k < g && q < n + m ==> Kept(orig, b, s, g, k, q))
    && (forall t: nat :: 1 <= t <= j && t < n + m ==> Done(orig, b, s, g, n, m, i, Walk(n, m, n, t)))
    && (forall t: nat :: j < t < n + m ==> Kept(orig, b, s, g, i, Walk(n, m, n, t)))
    && Waiting(orig, b, s, g, n, m, i, if j < n + m then Walk(n, m, n, j) else From(n, m, n))
  }

  ghost predicate Waiting<T>(orig: seq<T>, b: seq<T>, s: nat, g: nat, n: nat, m: nat, i: nat, q: nat) {
    Pos(s, g, i, n) < |b| && Pos(s, g, i, q) < |orig| && b[Pos(s, g, i, n)] == orig[Pos(s, g, i, q)]
  }

  lemma {:induction false} TurnStart<T>(orig: seq<T>, b: seq<T>, s: nat, g: nat, n: nat, m: nat, i: nat)
    requires m > 0 && Turned(orig, b, s, g, n, m, i) && i < g
    ensures Turning(orig, b, s, g, n, m, i, 0)
  {
    hide Outside, Done;
    assert Kept(orig, b, s, g, i, n);
    forall t: nat | 0 < t < n + m
      ensures Kept(orig, b, s, g, i, Walk(n, m, n, t))
    {
    }
  }

  /** One swap with the start of the cycle. */
  lemma {:induction false} TurnStep<T>(orig: seq<T>, b: seq<T>, b': seq<T>, s: nat, g: nat, n: nat, m: nat, i: nat,
          j: nat, x: int, y: int)
    requires m > 0 && Bezout(n, m, x, y)
    requires Turning(orig, b, s, g, n, m, i, j) && j < n + m
    requires var c, p := Pos(s, g, i, n), Pos(s, g, i, Walk(n, m, n, j + 1)); p < |b| && b' == b[p := b[c]][c := b[p]]
    ensures Turning(orig, b', s, g, n, m, i, j + 1)
  {
    hide Pos, Walk, Step, From, Outside;
    var l := n + m;
    var w := Walk(n, m, n, j + 1);
    PosBelow(s, g, i, n, l);
    PosBelow(s, g, i, w, l);
    OutsideSame(orig, b, b', s, s + l * g, Pos(s, g, i, w), Pos(s, g, i, n));
    forall k: nat, q: nat | k < i && q < l
      ensures Done(orig, b', s, g, n, m, k, q)
    {
      NotSame(s, g, k, q, i, n);
      NotSame(s, g, k, q, i, w);
      assert Done(orig, b, s, g, n, m, k, q);
    }
    forall k: nat, q: nat | i < k < g && q < l
      ensures Kept(orig, b', s, g, k, q)
    {
      NotSame(s, g, k, q, i, n);
      NotSame(s, g, k, q, i, w);
      assert Kept(orig, b, s, g, k, q);
    }
    TurnCycle(orig, b, b', s, g, n, m, i, j, x, y);
  }

  lemma {:induction false} OutsideSame<T>(orig: seq<T>, b: seq<T>, b': seq<T>, from: nat, to: nat, p: nat, c: nat)
    requires Outside(orig, b, from, to) && from <= p < to && from <= c < to && b' == b[p := b[c]][c := b[p]]
    ensures Outside(orig, b', from, to)
  {
  }

  /** What the swap does within the cycle. */
  lemma {:induction false} TurnCycle<T>(orig: seq<T>, b: seq<T>, b': seq<T>, s: nat, g: nat, n: nat, m: nat, i: nat,
          j: nat, x: int, y: int)
    requires m > 0 && Bezout(n, m, x, y)
    requires Turning(orig, b, s, g, n, m, i, j) && j < n + m
    requires var c, p := Pos(s, g, i, n), Pos(s, g, i, Walk(n, m, n, j + 1)); p < |b| && b' == b[p := b[c]][c := b[p]]
    ensures forall t: nat :: 1 <= t <= j + 1 && t < n + m ==> Done(orig, b', s, g, n, m, i, Walk(n, m, n, t))
    ensures forall t: nat :: j + 1 < t < n + m ==> Kept(orig, b', s, g, i, Walk(n, m, n, t))
    ensures Waiting(orig, b', s, g, n, m, i, if j + 1 < n + m then Walk(n, m, n, j + 1) else From(n, m, n))
  {
    hide Pos, Walk, Step, From, Outside;
    var l := n + m;
    var w := Walk(n, m, n, j + 1);
    FromStep(n, m, Walk(n, m, n, j));
    WalkNext(n, m, n, j);
    WalkBack(n, m, x, y);
    NotSame(s, g, i, w, i, n);
    forall t: nat | 1 <= t < l && t != j + 1
      ensures Pos(s, g, i, Walk(n, m, n, t)) != Pos(s, g, i, w)
    {
      WalkApart(n, m, x, y, t, j + 1);
      NotSame(s, g, i, Walk(n, m, n, t), i, w);
    }
    forall t: nat | 1 <= t < l
      ensures Pos(s, g, i, Walk(n, m, n, t)) != Pos(s, g, i, n)
    {
      NotSame(s, g, i, Walk(n, m, n, t), i, n);
    }
    forall t: nat | 1 <= t <= j + 1 && t < l
      ensures Done(orig, b', s, g, n, m, i, Walk(n, m, n, t))
    {
      if t <= j {
        assert Done(orig, b, s, g, n, m, i, Walk(n, m, n, t));
      }
    }
    if j + 1 < l {
      assert Kept(orig, b, s, g, i, w);
    }
    forall t: nat | j + 1 < t < l
      ensures Kept(orig, b', s, g, i, Walk(n, m, n, t))
    {
      assert Kept(orig, b, s, g, i, Walk(n, m, n, t));
    }
  }

  lemma {:induction false} WalkApart(n: nat, m: nat, x: int, y: int, t: nat, j: nat)
    requires m > 0 && Bezout(n, m, x, y) && 1 <= t < n + m && 1 <= j <= n + m && t != j
    ensures Walk(n, m, n, t) != Walk(n, m, n, j)
  {
    if t < j {
      WalkDistinct(n, m, n, x, y, t, j);
    } else {
      WalkDistinct(n, m, n, x, y, j, t);
    }
  }

  lemma {:induction false} WalkNext(n: nat, m: nat, c: nat, j: nat)
    requires c < n + m
    ensures Walk(n, m, c, j + 1) == Step(n, m, Walk(n, m, c, j))
  {
  }

  /** The walk from n visits n again only after the whole round. */
  lemma {:induction false} WalkBack(n: nat, m: nat, x: int, y: int)
    requires m > 0 && Bezout(n, m, x, y)
    ensures Walk(n, m, n, 0) == n == Walk(n, m, n, n + m)
    ensures forall t: nat :: 1 <= t < n + m ==> Walk(n, m, n, t) != n
  {
    WalkCloses(n, m, n);
    forall t: nat | 1 <= t < n + m
      ensures Walk(n, m, n, t) != n
    {
      WalkDistinct(n, m, n, x, y, 0, t);
    }
  }

  lemma {:induction false} NotSame(s: nat, g: nat, i: nat, q: nat, k: nat, r: nat)
    requires i < g && k < g
    ensures i != k || q != r ==> Pos(s, g, i, q) != Pos(s, g, k, r)
  {
    if Pos(s, g, i, q) == Pos(s, g, k, r) {
      PosOnly(s, g, i, q, k, r);
    }
  }

  lemma {:induction false} TurnEnd<T>(orig: seq<T>, b: seq<T>, s: nat, g: nat, n: nat, m: nat, i: nat, x: int, y: int)
    requires m > 0 && Bezout(n, m, x, y)
    requires Turning(orig, b, s, g, n, m, i, n + m)
    ensures Turned(orig, b, s, g, n, m, i + 1)
  {
    hide Outside, Kept;
    forall q: nat | q < n + m
      ensures Done(orig, b, s, g, n, m, i, q)
    {
      var t := WalkReaches(n, m, n, x, y, q);
      if t < n + m {
        assert Done(orig, b, s, g, n, m, i, Walk(n, m, n, t));
      } else {
        WalkCloses(n, m, n);
      }
    }
  }

  // ---- all cycles ----

  lemma {:induction false} NothingTurned<T>(a: seq<T>, s: nat, g: nat, n: nat, m: nat)
    requires s + Mul(n + m, g) <= |a|
    ensures Turned(a, a, s, g, n, m, 0)
  {
    forall k: nat, q: nat | 0 <= k < g && q < n + m
      ensures Kept(a, a, s, g, k, q)
    {
      PosBelow(s, g, k, q, n + m);
    }
  }

  /** With all cycles turned, the two blocks have changed places. */
  lemma {:induction false} AllTurned<T>(orig: seq<T>, b: seq<T>, s: nat, g: nat, n: nat, m: nat)
    requires g > 0 && Turned(orig, b, s, g, n, m, g)
    ensures s + Mul(n, g) + Mul(m, g) <= |orig|
    ensures b ==
            orig[..s] + orig[s + Mul(n, g)..s + Mul(n, g) + Mul(m, g)] + orig[s..s + Mul(n, g)]
            + orig[s + Mul(n, g) + Mul(m, g)..]
  {
    var e, o := s + Mul(n, g), s + Mul(n, g) + Mul(m, g);
    assert (n + m) * g == n * g + m * g;
    assert Mul(n + m, g) == Mul(n, g) + Mul(m, g);
    hide Mul, Turned;
    forall p | s <= p < o
      ensures b[p] == orig[if p < s + Mul(m, g) then p + Mul(n, g) else p - Mul(m, g)]
    {
      TurnedAt(orig, b, s, g, n, m, p);
    }
    Pieces(orig, b, s, e, o);
  }

  lemma {:induction false} TurnedAt<T>(orig: seq<T>, b: seq<T>, s: nat, g: nat, n: nat, m: nat, p: nat)
    requires g > 0 && Turned(orig, b, s, g, n, m, g) && s <= p < s + Mul(n + m, g)
             && Mul(n + m, g) == Mul(n, g) + Mul(m, g)
    ensures s + Mul(n, g) + Mul(m, g) <= |orig| == |b|
    ensures b[p] == orig[if p < s + Mul(m, g) then p + Mul(n, g) else p - Mul(m, g)]
  {
    var q, k := DivPos(p - s, g);
    BelowPos(k, q, n + m, g);
    assert Done(orig, b, s, g, n, m, k, q);
    FromPos(s, g, k, q, n, m);
  }

  lemma {:induction false} DivPos(p: nat, g: nat) returns (q: nat, k: nat)
    requires g > 0
    ensures k < g && p == q * g + k
  {
    q, k := p / g, p % g;
    Divided(p, g);
  }

  lemma {:induction false} BelowPos(k: nat, q: nat, l: nat, g: nat)
    requires q * g + k < l * g
    ensures q < l
  {
    Bounds(l - q, g);
    assert (l - q) * g == l * g - q * g;
  }

  lemma {:induction false} FromPos(s: nat, g: nat, k: nat, q: nat, n: nat, m: nat)
    requires k < g && q < n + m
    ensures Pos(s, g, k, From(n, m, q)) == if Pos(s, g, k, q) < s + m * g then Pos(s, g, k, q) + n * g
                                           else Pos(s, g, k, q) - m * g
  {
    PosStep(s, g, k, From(n, m, q), n, m);
    PosStep(s, g, k, q, m, n);
  }

  lemma {:induction false} Pieces<T>(orig: seq<T>, b: seq<T>, s: nat, e: nat, o: nat)
    requires Outside(orig, b, s, o) && s <= e <= o
    requires forall p :: s <= p < o ==> b[p] == orig[if p < s + (o - e) then p + (e - s) else p - (o - e)]
    ensures b == orig[..s] + orig[e..o] + orig[s..e] + orig[o..]
  {
    assert forall p :: 0 <= p < s ==> b[p] == b[..s][p] == orig[..s][p];
    assert forall p :: o <= p < |b| ==> b[p] == b[o..][p - o] == orig[o..][p - o];
  }

  /** Turns one cycle: the inner loop of permute_args. */
  method OneCycle<T>(start: nat, mid: nat, nargv: array<T>, ncycle: nat, cyclelen: nat, i: nat, nnonopts: nat,
          nopts: nat, ghost orig: seq<T>, ghost n: nat, ghost m: nat, ghost x: int, ghost y: int)
    requires m > 0 && Bezout(n, m, x, y) && cyclelen == n + m && i < ncycle && mid == start + nnonopts
    requires nnonopts == Mul(n, ncycle) && nopts == Mul(m, ncycle) && start + Mul(n + m, ncycle) <= nargv.Length
    requires Turned(orig, nargv[..], start, ncycle, n, m, i)
    modifies nargv
    ensures Turned(orig, nargv[..], start, ncycle, n, m, i + 1)
  {
    hide *;
    var cstart := mid + i;
    var pos: nat, j := cstart, 0;
    TurnStart(orig, nargv[..], start, ncycle, n, m, i);
    StartPos(start, ncycle, n, m, i);
    PosBelow(start, ncycle, i, n, n + m);
    while j < cyclelen
      invariant 0 <= j <= cyclelen && pos == Pos(start, ncycle, i, Walk(n, m, n, j))
      invariant Turning(orig, nargv[..], start, ncycle, n, m, i, j)
    {
      WalkNext(n, m, n, j);
      PosStep(start, ncycle, i, Walk(n, m, n, j), n, m);
      PosBelow(start, ncycle, i, Walk(n, m, n, j + 1), n + m);
      if pos >= mid {
        pos := pos - nnonopts;
      } else {
        pos := pos + nopts;
      }
      ghost var b := nargv[..];
      var swap := nargv[pos];
      nargv[pos] := nargv[cstart];
      nargv[cstart] := swap;
      assert nargv[..] == b[pos := b[cstart]][cstart := b[pos]];
      TurnStep(orig, b, nargv[..], start, ncycle, n, m, i, j, x, y);
      j := j + 1;
    }
    TurnEnd(orig, nargv[..], start, ncycle, n, m, i, x, y);
  }

  /** Exchanges the block of arguments from start up to mid with the block from mid up to end. The
      order within each block stays. */
  method PermuteArgs<T>(start: nat, mid: nat, end: nat, nargv: array<T>)
    requires start <= mid < end <= nargv.Length
    modifies nargv
    ensures nargv[..] == old(nargv[..start] + nargv[mid..end] + nargv[start..mid] + nargv[end..])
  {
    hide *;
    ghost var orig := nargv[..];
    var nnonopts, nopts := mid - start, end - mid;
    var ncycle;
    ghost var n, m, x, y;
    ncycle, n, m, x, y := Gcd(nnonopts, nopts);
    Coprime(nnonopts, nopts, ncycle, n, m, x, y);
    var cyclelen := Quot(end - start, ncycle);
    NothingTurned(orig, start, ncycle, n, m);
    var i := 0;
    while i < ncycle
      invariant 0 <= i <= ncycle && Turned(orig, nargv[..], start, ncycle, n, m, i)
    {
      OneCycle(start, mid, nargv, ncycle, cyclelen, i, nnonopts, nopts, orig, n, m, x, y);
      i := i + 1;
    }
    AllTurned(orig, nargv[..], start, ncycle, n, m);
    assert orig[..start] == old(nargv[..start]) && orig[mid..end] == old(nargv[mid..end]);
    assert orig[start..mid] == old(nargv[start..mid]) && orig[end..] == old(nargv[end..]);
  }

  /** The lengths in whole cycles have no common divisor. */
  lemma {:induction false} Coprime(a: nat, b: nat, g: nat, n: nat, m: nat, x: int, y: int)
    requires b > 0 && g > 0 && a == Mul(n, g) && b == Mul(m, g) && Combines(g, a, b, x, y)
    ensures Bezout(n, m, x, y) && m > 0 && Quot(a + b, g) == n + m && Mul(n + m, g) == a + b && Mul(n, g) == a
            && Mul(m, g) == b
  {
    assert Mul(n, g) == a && Mul(m, g) == b;
    assert (n + m) * g == a + b;
    DivExact(n + m, g);
    Reduces(a, b, g, n, m, x, y);
  }

  lemma {:induction false} Reduces(a: nat, b: nat, g: nat, n: nat, m: nat, x: int, y: int)
    requires b > 0 && g > 0 && a == n * g && b == m * g && g == x * a + y * b
    ensures x * n + y * m == 1 && m > 0
  {
    assert (x * n + y * m) * g == 1 * g by {
      calc {
        (x * n + y * m) * g;
        x * (n * g) + y * (m * g);
      }
    }
    Whole(x * n + y * m, 1, g);
    SmallMultiple(x * n + y * m - 1, g);
  }

  lemma {:induction false} DivExact(k: nat, g: nat)
    requires g > 0
    ensures (k * g) / g == k
  {
    Divided(k * g, g);
    ExactRest(k, (k * g) / g, (k * g) % g, g);
  }

  lemma {:induction false} ExactRest(k: nat, q: nat, r: nat, g: nat)
    requires k * g == q * g + r && r < g
    ensures q == k
  {
    Whole(k, q, g);
    SmallMultiple(k - q, g);
  }

  lemma {:induction false} StartPos(s: nat, g: nat, n: nat, m: nat, i: nat)
    requires m > 0
    ensures Pos(s, g, i, Walk(n, m, n, 0)) == Pos(s, g, i, n) == s + Mul(n, g) + i
  {
  }
}
