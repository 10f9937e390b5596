/**
 Bitwise operations on naturals of any width, for the drivers that shift by a computed amount:
 a number is looked at as the set of positions of its 1 bits.
 */
module Bits {
  import opened Arith

  /** (w >> k) & 1 */
  predicate Bit(w: nat, k: nat) {
    if k == 0 then w % 2 == 1 else Bit(w / 2, k - 1)
  }

  /** a | b */
  function Or(a: nat, b: nat): nat {
    if a == 0 then b else 2 * Or(a / 2, b / 2) + (if a % 2 == 1 || b % 2 == 1 then 1 else 0)
  }

  /** a & ~b */
  function AndNot(a: nat, b: nat): nat {
    if a == 0 then 0 else 2 * AndNot(a / 2, b / 2) + (if a % 2 == 1 && b % 2 == 0 then 1 else 0)
  }

  /** w >> k */
  function Shr(w: nat, k: nat): nat {
    if k == 0 then w else Shr(w / 2, k - 1)
  }

  /** Shifting is dividing by a power of two, and a bit is the parity of what is left. */
  lemma {:induction false} ShrIsDiv(w: nat, k: nat)
    ensures Shr(w, k) == Div(w, Pow2(k)) && (Bit(w, k) <==> Div(w, Pow2(k)) % 2 == 1)
  {
    if k > 0 {
      ShrIsDiv(w / 2, k - 1);
      DivDiv(w, 2, Pow2(k - 1));
    }
  }

  lemma {:induction false} ShrStep(w: nat, k: nat)
    ensures Shr(w, k + 1) == Shr(w, k) / 2
  {
    if k > 0 { ShrStep(w / 2, k - 1); }
  }

  lemma {:induction false} ZeroHasNoBits(k: nat)
    ensures !Bit(0, k)
  {
    if k > 0 { ZeroHasNoBits(k - 1); }
  }

  lemma {:induction false} OrBit(a: nat, b: nat, k: nat)
    ensures Bit(Or(a, b), k) <==> Bit(a, k) || Bit(b, k)
  {
    if a == 0 {
      ZeroHasNoBits(k);
    } else if k > 0 {
      OrBit(a / 2, b / 2, k - 1);
    }
  }

  lemma {:induction false} AndNotBit(a: nat, b: nat, k: nat)
    ensures Bit(AndNot(a, b), k) <==> Bit(a, k) && !Bit(b, k)
  {
    if a == 0 {
      ZeroHasNoBits(k);
    } else if k > 0 {
      AndNotBit(a / 2, b / 2, k - 1);
    }
  }

  lemma {:induction false} Pow2Bit(n: nat, k: nat)
    ensures Bit(Pow2(n), k) <==> k == n
  {
    if k == 0 {
    } else if n == 0 {
      ZeroHasNoBits(k - 1);
    } else {
      Pow2Bit(n - 1, k - 1);
    }
  }

  /** Numbers with the same bits are the same. */
  lemma {:induction false} SameBits(a: nat, b: nat)
    requires forall k: nat :: Bit(a, k) <==> Bit(b, k)
    ensures a == b
    decreases a + b
  {
    if a != 0 || b != 0 {
      assert Bit(a, 0) <==> Bit(b, 0);
      forall k: nat ensures Bit(a / 2, k) <==> Bit(b / 2, k) {
        assert Bit(a, k + 1) <==> Bit(b, k + 1);
      }
      SameBits(a / 2, b / 2);
    }
  }

  /** Below and above a position, `or` is addition. */
  lemma {:induction false} OrDisjoint(low: nat, high: nat, k: nat)
    requires low < Pow2(k)
    ensures Or(low, high * Pow2(k)) == low + high * Pow2(k)
  {
    if low == 0 {
    } else {
      OrDisjoint(low / 2, high, k - 1);
      Associate(high, 2, Pow2(k - 1));
    }
  }
}
