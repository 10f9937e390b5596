/** Facts about multiplication and floor division of naturals that several drivers rely on. */
module Arith {

  function Min(a: nat, b: nat): nat { if a <= b then a else b }

  lemma MulLe(a: nat, b: nat, c: nat)
    requires a <= b
    ensures a * c <= b * c && c * a <= c * b
  {
  }

  lemma Distribute(a: int, b: int, c: int)
    ensures (a + b) * c == a * c + b * c && c * (a + b) == c * a + c * b
  {
  }

  lemma Associate(a: int, b: int, c: int)
    ensures (a * b) * c == a * (b * c) == (a * c) * b
  {
  }

  /** Floor division, as C divides unsigned values. */
  function Div(x: nat, d: nat): (q: nat)
    requires 0 < d
  {
    x / d
  }

  function Mod(x: nat, d: nat): (r: nat)
    requires 0 < d
    ensures r < d
  {
    x % d
  }

  lemma DivMod(x: nat, d: nat)
    requires 0 < d
    ensures x == Div(x, d) * d + Mod(x, d) && x == d * Div(x, d) + Mod(x, d)
  {
  }

  lemma QuotientUnique(x: nat, d: nat, q: nat, r: nat)
    requires 0 < d && x == q * d + r && r < d
    ensures Div(x, d) == q && Mod(x, d) == r
  {
    hide Div, Mod;
    DivMod(x, d);
    var q' := Div(x, d);
    if q' < q {
      MulLe(q' + 1, q, d);
      Distribute(q', 1, d);
    } else if q < q' {
      MulLe(q + 1, q', d);
      Distribute(q, 1, d);
    }
  }

  /** Div(x, d) is the largest q with q*d <= x. */
  lemma FloorIff(x: nat, d: nat, q: nat)
    requires 0 < d
    ensures q <= Div(x, d) <==> q * d <= x
  {
    hide Div, Mod;
    DivMod(x, d);
    if q <= Div(x, d) { MulLe(q, Div(x, d), d); }
    else { MulLe(Div(x, d) + 1, q, d); Distribute(Div(x, d), 1, d); }
  }

  lemma DivMonotone(x: nat, y: nat, d: nat)
    requires x <= y && 0 < d
    ensures Div(x, d) <= Div(y, d)
  {
    hide Div;
    FloorIff(x, d, Div(x, d));
    FloorIff(y, d, Div(x, d));
  }

  lemma AddMultiple(x: nat, d: nat, k: nat)
    requires 0 < d
    ensures k * d + x >= 0
    ensures Div(k * d + x, d) == k + Div(x, d) && Mod(k * d + x, d) == Mod(x, d)
  {
    hide Div, Mod;
    DivMod(x, d);
    Distribute(k, Div(x, d), d);
    QuotientUnique(k * d + x, d, k + Div(x, d), Mod(x, d));
  }

  /** Two floor divisions in a row are one division by the product. */
  lemma DivDiv(x: nat, a: nat, b: nat)
    requires 0 < a && 0 < b
    ensures a * b > 0 && Div(Div(x, a), b) == Div(x, a * b)
  {
    hide Div, Mod;
    var y := Div(x, a);
    DivMod(x, a);
    DivMod(y, b);
    var q, r1, r2 := Div(y, b), Mod(x, a), Mod(y, b);
    Distribute(q * b, r2, a);
    Associate(q, b, a);
    MulLe(r2 + 1, b, a);
    Distribute(r2, 1, a);
    MulLe(1, a, b);
    QuotientUnique(x, a * b, q, r2 * a + r1);
  }

  function Pow2(k: nat): (r: nat)
    ensures r >= 1
  {
    if k == 0 then 1 else 2 * Pow2(k - 1)
  }

  lemma {:induction false} Pow2Add(a: nat, b: nat)
    ensures Pow2(a + b) == Pow2(a) * Pow2(b)
  {
    if a > 0 {
      Pow2Add(a - 1, b);
      Associate(2, Pow2(a - 1), Pow2(b));
    }
  }

  lemma {:induction false} Pow2Monotone(a: nat, b: nat)
    requires a <= b
    ensures Pow2(a) <= Pow2(b)
  {
    if a < b { Pow2Monotone(a, b - 1); }
  }
}
