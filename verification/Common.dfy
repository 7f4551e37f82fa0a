/** Types used throughout, and the few facts about division and products the proofs need. */
module Common {
  datatype Option<T> = None | Some(value: T)

  /** The contents of a block: bytes, or the 32-bit words the journal looks at. */
  type Block = seq<nat>

  lemma {:induction false} DivMod(x: nat, per: nat)
    requires per > 0
    ensures x == per * (x / per) + x % per
  {
  }

  lemma {:induction false} DivIs(x: nat, per: nat, g: nat, i: nat)
    requires per > 0 && i < per && x == per * g + i
    ensures x / per == g && x % per == i
  {
    DivMod(x, per);
    Up(per, g, x / per);
    Up(per, x / per, g);
  }

  lemma {:induction false} Up(per: nat, a: int, b: int)
    ensures a < b ==> per * a + per <= per * b
  {
    if a < b {
      Spread(per, a, b - a - 1);
    }
  }

  lemma {:induction false} Spread(per: nat, a: int, d: nat)
    ensures per * (a + 1 + d) == per * a + per + per * d && per * d >= 0
  {
  }
}
