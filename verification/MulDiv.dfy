/**
 The overflow-avoiding v * num / den on 64-bit unsigned values that converts cycle counts to
 clock ticks.
 */
module MulDiv {
  import opened Arith

  const TWO64: nat := 0x1_0000_0000_0000_0000

  /** C's unsigned arithmetic wraps at 64 bits after each multiplication and addition. */
  function Wrap(x: nat): (r: nat)
    ensures r < TWO64
  {
    x % TWO64
  }

  function MulDiv(v: nat, num: nat, den: nat): (r: nat)
    requires v < TWO64 && num < TWO64 && 0 < den < TWO64
    ensures r < TWO64
  {
    Wrap(Div(Wrap(Mod(v, den) * num), den) + Wrap(Div(v, den) * num))
  }

  /** The quotient the function stands for, on unbounded integers. */
  function Exact(v: nat, num: nat, den: nat): nat
    requires 0 < den
  {
    Div(v * num, den)
  }

  // ---------------------------------------------------------------- exactness

  lemma WrapAdd(a: nat, b: nat)
    ensures Wrap(a + Wrap(b)) == Wrap(a + b)
  {
    DivMod(b, TWO64);
    AddMultiple(a + Wrap(b), TWO64, Div(b, TWO64));
  }

  /** Splitting v loses nothing: the two partial quotients add up to the exact one. */
  lemma SplitIsExact(v: nat, num: nat, den: nat)
    requires 0 < den
    ensures Div(Mod(v, den) * num, den) + Div(v, den) * num == Exact(v, num, den)
  {
    hide Div, Mod;
    var q, r := Div(v, den), Mod(v, den);
    DivMod(v, den);
    Distribute(q * den, r, num);
    Associate(q, den, num);
    AddMultiple(r * num, den, q * num);
  }

  lemma ExactWhenNoOverflow(v: nat, num: nat, den: nat)
    requires v < TWO64 && num < TWO64 && 0 < den < TWO64
    requires Mod(v, den) * num < TWO64
    ensures MulDiv(v, num, den) == Wrap(Exact(v, num, den))
  {
    hide Div, Mod, Exact;
    SplitIsExact(v, num, den);
    WrapAdd(Div(Mod(v, den) * num, den), Div(v, den) * num);
  }

  /** Wrapping a dividend takes at least one whole divisor off it. */
  lemma WrapLosesQuotient(x: nat, den: nat)
    requires 0 < den < TWO64 <= x
    ensures Div(Wrap(x), den) < Div(x, den)
  {
    hide Div;
    assert Wrap(x) + den <= x;
    AddMultiple(Wrap(x), den, 1);
    DivMonotone(1 * den + Wrap(x), x, den);
  }

  lemma QuotientIsBelow(num: nat, den: nat)
    requires 0 < den && 0 < num
    ensures Exact(den - 1, num, den) < num
  {
    hide Div;
    var x := (den - 1) * num;
    Distribute(den - 1, 1, num);
    FloorIff(x, den, num);
  }

  /** When the remainder product does not fit, the answer for v = den - 1 is too small. */
  lemma InexactWhenOverflow(num: nat, den: nat)
    requires num < TWO64 && 0 < den < TWO64 && (den - 1) * num >= TWO64
    ensures MulDiv(den - 1, num, den) != Wrap(Exact(den - 1, num, den))
  {
    hide Div, Mod;
    var x := (den - 1) * num;
    QuotientUnique(den - 1, den, 0, den - 1);
    WrapLosesQuotient(x, den);
    QuotientIsBelow(num, den);
  }

  /** MulDiv is exact modulo 2^64 for every 64-bit v if and only if (den-1)*num fits 64 bits. */
  lemma ExactIff(num: nat, den: nat)
    requires num < TWO64 && 0 < den < TWO64
    ensures (forall v: nat :: v < TWO64 ==> MulDiv(v, num, den) == Wrap(Exact(v, num, den)))
            <==> (den - 1) * num < TWO64
  {
    hide Div, Exact, MulDiv, Wrap;
    if (den - 1) * num < TWO64 {
      forall v: nat | v < TWO64 ensures MulDiv(v, num, den) == Wrap(Exact(v, num, den)) {
        MulLe(Mod(v, den), den - 1, num);
        ExactWhenNoOverflow(v, num, den);
      }
    } else {
      InexactWhenOverflow(num, den);
    }
  }

  /** Time marches forward: until the result wraps, a later cycle count never converts to an earlier
      tick. */
  lemma Monotone(v1: nat, v2: nat, num: nat, den: nat)
    requires v1 <= v2 < TWO64 && num < TWO64 && 0 < den < TWO64 && (den - 1) * num < TWO64
    ensures Exact(v1, num, den) <= Exact(v2, num, den)
    ensures Exact(v2, num, den) < TWO64 ==> MulDiv(v1, num, den) <= MulDiv(v2, num, den)
  {
    hide Div, MulDiv;
    ExactIff(num, den);
    MulLe(v1, v2, num);
    DivMonotone(v1 * num, v2 * num, den);
  }
}
