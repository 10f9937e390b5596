/**
 The FE310-G000 PLL driver: choosing the closest configuration, programming it field by field
 without ever touching a PLL the core runs from, and reading the rate back.
 */
module Pll {
  import opened Arith
  import opened PllTable

  // ---------------------------------------------------------------- rates

  /** The rate a row yields for an input rate, or -1 when the input is out of the row's range. */
  function Predicted(ref: nat, c: PllConfig): int
    requires 1 <= c.divisor
  {
    if ref < c.minInput || ref > c.maxInput then -1 else Div(ref * c.multiplier, c.divisor)
  }

  function PredictedRow(ref: nat, i: nat): int
    requires i < CONFIGS
  {
    EveryRowIsOk(i);
    Predicted(ref, Config(i))
  }

  function Abs(x: int): nat { if x < 0 then -x else x }

  /** A row is valid exactly in its range of inputs, and then predicts ref*multiplier/divisor, rounded down. */
  lemma PredictionMeans(ref: nat, i: nat)
    requires i < CONFIGS
    ensures var p, c := PredictedRow(ref, i), Config(i);
            && (p != -1 <==> c.minInput <= ref <= c.maxInput)
            && (p != -1 ==> 0 <= p && p * c.divisor <= ref * c.multiplier < (p + 1) * c.divisor)
  {
    hide Div, Mod;
    EveryRowIsOk(i);
    var c := Config(i);
    var x := ref * c.multiplier;
    DivMod(x, c.divisor);
    Distribute(Div(x, c.divisor), 1, c.divisor);
  }

  /** Row i is valid for the input, no valid row is closer to the wanted rate, and of equally close
      rows it is the last in the table. */
  ghost predicate Closest(ref: nat, rate: int, i: nat) {
    && i < CONFIGS
    && PredictedRow(ref, i) != -1
    && forall k :: 0 <= k < CONFIGS && PredictedRow(ref, k) != -1 ==>
         if k <= i then Abs(PredictedRow(ref, i) - rate) <= Abs(PredictedRow(ref, k) - rate)
         else Abs(PredictedRow(ref, i) - rate) < Abs(PredictedRow(ref, k) - rate)
  }

  /** The three stages of the PLL and the divider behind it, each with its own truncation. */
  function Stages(ref: nat, r: nat, f: nat, q: nat, outdiv: nat): nat
    requires q < 4 && 1 <= outdiv
  {
    Div(Div(Div(ref, r + 1) * (2 * (f + 1)), QDiv(q)), outdiv)
  }

  lemma StagesAsOneDivision(ref: nat, r: nat, f: nat, q: nat, outdiv: nat)
    requires q < 4 && 1 <= outdiv
    ensures QDiv(q) * outdiv >= 1
    ensures Stages(ref, r, f, q, outdiv) == Div(Div(ref, r + 1) * (2 * (f + 1)), QDiv(q) * outdiv)
  {
    hide Div, Pow2;
    DivDiv(Div(ref, r + 1) * (2 * (f + 1)), QDiv(q), outdiv);
  }

  /** If u*d == w*v then u/v and w/d are the same quotient. */
  lemma SameRatio(u: nat, v: nat, w: nat, d: nat)
    requires 0 < v && 0 < d && u * d == w * v
    ensures Div(u, v) == Div(w, d)
  {
    hide Div, Mod;
    var q, t := Div(w, d), Mod(w, d);
    DivMod(w, d);
    // u*d == q*d*v + t*v, so q*v <= u < (q+1)*v
    Distribute(q * d, t, v);
    Associate(q, d, v);
    if u < q * v { MulLe(u + 1, q * v, d); Distribute(u, 1, d); }
    if u >= q * v + v {
      MulLe(q * v + v, u, d);
      Distribute(q * v, v, d);
      MulLe(t + 1, d, v);
      Distribute(t, 1, v);
    }
    FloorIff(u, v, q);
    Distribute(q, 1, v);
    FloorIff(u, v, q + 1);
  }

  /** Moving a dividend up by at most e*v moves the quotient up by at most e. */
  lemma QuotientSpread(u: nat, x: nat, v: nat, e: nat)
    requires 0 < v && u <= x <= u + e * v
    ensures Div(u, v) <= Div(x, v) <= Div(u, v) + e
  {
    hide Div;
    DivMonotone(u, x, v);
    DivMonotone(x, e * v + u, v);
    AddMultiple(u, v, e);
  }

  /** Dividing by a first and scaling by m/d afterwards loses at most MAX_ERROR against scaling by
      mult/v, when the two scalings agree on multiples of a. */
  lemma DivideFirst(ref: nat, a: nat, m: nat, d: nat, mult: nat, v: nat)
    requires 0 < a && 0 < d && 0 < v && (a - 1) * mult <= MAX_ERROR * v
    requires var n := Div(ref, a); (n * a * mult) * d == (n * m) * v
    ensures var back := Div(Div(ref, a) * m, d); back <= Div(ref * mult, v) <= back + MAX_ERROR
  {
    hide Div, Mod;
    var n := Div(ref, a);
    SameRatio(n * a * mult, v, n * m, d);
    DivMod(ref, a);
    MulLe(n * a, ref, mult);
    MulLe(ref, n * a + (a - 1), mult);
    Distribute(n * a, a - 1, mult);
    QuotientSpread(n * a * mult, ref * mult, v, MAX_ERROR);
  }

  /** The rate read back from a row's fields lies between 0 and 42 Hz below the rate predicted from
      its first two columns. */
  lemma ReadBackBound(ref: nat, c: PllConfig)
    requires RowOk(c) && c.minInput <= ref <= c.maxInput
    ensures var back := Stages(ref, c.r, c.f, c.q, OutDiv(c));
            back <= Predicted(ref, c) <= back + MAX_ERROR
  {
    hide Div, Mod, QDiv, OutDiv, Pow2, Stages;
    StagesAsOneDivision(ref, c.r, c.f, c.q, OutDiv(c));
    // the row identity scales the input actually used to the product the stages divide
    RowIdentity(c, Div(ref, c.r + 1));
    DivideFirst(ref, c.r + 1, 2 * (c.f + 1), QDiv(c.q) * OutDiv(c), c.multiplier, c.divisor);
  }

  lemma RowIdentity(c: PllConfig, n: nat)
    requires RowOk(c)
    ensures (n * (c.r + 1) * c.multiplier) * (QDiv(c.q) * OutDiv(c)) == (n * (2 * (c.f + 1))) * c.divisor
  {
    var a, q, o, m := c.r + 1, QDiv(c.q), OutDiv(c), 2 * (c.f + 1);
    calc {
      (n * a * c.multiplier) * (q * o);
    ==  { Associate(n, a, c.multiplier); Associate(n, a * c.multiplier, q * o); }
      n * ((a * c.multiplier) * (q * o));
    ==  { Associate(a * c.multiplier, q, o); assert a * c.multiplier == c.multiplier * a; }
      n * (c.multiplier * a * q * o);
    ==
      n * (c.divisor * m);
    ==  { Associate(n, m, c.divisor); assert c.divisor * m == m * c.divisor; }
      (n * m) * c.divisor;
    }
  }

  lemma ProductOfQuotient(ref: nat, max: nat, a: nat, m: nat, limit: nat)
    requires 0 < a && ref <= max && max * m <= limit * a
    ensures Div(ref, a) * m <= limit
  {
    hide Div, Mod;
    var n := Div(ref, a);
    DivMod(ref, a);
    MulLe(n * a, max, m);
    Associate(n, a, m);
    if limit < n * m { MulLe(limit + 1, n * m, a); Distribute(limit, 1, a); }
  }

  lemma QuotientAtMost(x: nat, d: nat)
    requires 0 < d
    ensures Div(x, d) <= x
  {
    hide Div, Mod;
    DivMod(x, d);
    MulLe(1, d, Div(x, d));
  }

  /** Nothing on the way overflows: the prediction fits an unsigned and the stages a signed 32-bit long. */
  lemma NoOverflow(ref: nat, c: PllConfig)
    requires RowOk(c) && c.minInput <= ref <= c.maxInput
    ensures ref * c.multiplier <= MAX_OUTPUT
    ensures Div(ref, c.r + 1) * (2 * (c.f + 1)) <= LONG_MAX
    ensures 1 <= Predicted(ref, c) <= MAX_OUTPUT
  {
    hide Div, QDiv, OutDiv;
    ProductOfQuotient(ref, c.maxInput, c.r + 1, 2 * (c.f + 1), LONG_MAX);
    MulLe(ref, c.maxInput, c.multiplier);
    MulLe(c.minInput, ref, c.multiplier);
    FloorIff(ref * c.multiplier, c.divisor, 1);
    QuotientAtMost(ref * c.multiplier, c.divisor);
  }

  // ---------------------------------------------------------------- choosing a row

  /** What find_closest_config asks of its caller: the difference to any predicted rate must be a
      long, and not the largest one, which marks "nothing found yet". */
  ghost predicate RateInRange(rate: int) { MAX_OUTPUT - LONG_MAX < rate <= LONG_MAX }

  method FindClosestConfig(ref: nat, rate: int) returns (index: int)
    requires ref <= LONG_MAX && RateInRange(rate)
    ensures index == -1 <==> forall k :: 0 <= k < CONFIGS ==> PredictedRow(ref, k) == -1
    ensures index != -1 ==> 0 <= index < CONFIGS && Closest(ref, rate, index)
    ensures index != -1 ==> forall k :: 0 <= k < CONFIGS && PredictedRow(ref, k) != -1 ==>
              if k <= index then Abs(PredictedRow(ref, index) - rate) <= Abs(PredictedRow(ref, k) - rate)
              else Abs(PredictedRow(ref, index) - rate) < Abs(PredictedRow(ref, k) - rate)
  {
    hide PredictedRow, Abs;
    index := -1;
    var closestDiff := LONG_MAX;
    var i := CONFIGS - 1;
    while i >= 0
      invariant -1 <= i < CONFIGS
      invariant index == -1 ==> closestDiff == LONG_MAX && forall k :: i < k < CONFIGS ==> PredictedRow(ref, k) == -1
      invariant index != -1 ==>
                  && i < index < CONFIGS && PredictedRow(ref, index) != -1
                  && closestDiff == Abs(PredictedRow(ref, index) - rate)
                  && forall k :: i < k < CONFIGS && PredictedRow(ref, k) != -1 ==>
                       if k <= index then closestDiff <= Abs(PredictedRow(ref, k) - rate)
                       else closestDiff < Abs(PredictedRow(ref, k) - rate)
    {
      var freq := PredictedRow(ref, i);
      if freq != -1 {
        PredictionInRange(ref, rate, i);
        var diff := Abs(freq - rate);
        if diff < closestDiff {
          index := i;
          closestDiff := diff;
        }
      }
      i := i - 1;
    }
  }

  lemma PredictionInRange(ref: nat, rate: int, i: nat)
    requires i < CONFIGS && PredictedRow(ref, i) != -1 && RateInRange(rate)
    ensures Abs(PredictedRow(ref, i) - rate) < LONG_MAX
    ensures 1 <= PredictedRow(ref, i) <= MAX_OUTPUT
  {
    EveryRowIsOk(i);
    NoOverflow(ref, Config(i));
  }

  // ---------------------------------------------------------------- the registers

  const PLL_R: bv32 := 0x0000_0007
  const PLL_F: bv32 := 0x0000_03F0
  const PLL_Q: bv32 := 0x0000_0C00
  const PLL_SEL: bv32 := 0x0001_0000
  const PLL_REFSEL: bv32 := 0x0002_0000
  const PLL_BYPASS: bv32 := 0x0004_0000
  const PLL_LOCK: bv32 := 0x8000_0000
  const DIV_DIV: bv32 := 0x0000_003F
  const DIV_1: bv32 := 0x0000_0100

  /** The fields that must not change while the core runs from the PLL. */
  const PROTECTED: bv32 := 0x0006_0FF7

  function FieldR(cfg: bv32): nat { (cfg & PLL_R) as nat }
  function FieldF(cfg: bv32): nat { ((cfg & PLL_F) >> 4) as nat }
  function FieldQ(cfg: bv32): nat { ((cfg & PLL_Q) >> 10) as nat }
  function FieldDiv(div: bv32): nat { (div & DIV_DIV) as nat }

  lemma FieldRanges(cfg: bv32, div: bv32)
    ensures FieldR(cfg) < 8 && FieldF(cfg) < 64 && FieldQ(cfg) < 4 && FieldDiv(div) < 64
  {
    AtMost7(cfg & PLL_R);
    AtMost63((cfg & PLL_F) >> 4);
    AtMost3((cfg & PLL_Q) >> 10);
    AtMost63(div & DIV_DIV);
  }

  lemma AtMost3(b: bv32)
    requires b <= 3
    ensures b as nat <= 3
  {
  }

  lemma AtMost7(b: bv32)
    requires b <= 7
    ensures b as nat <= 7
  {
  }

  lemma AtMost63(b: bv32)
    requires b <= 63
    ensures b as nat <= 63
  {
  }

  function RefHz(cfg: bv32, pllref: nat, pllsel0: nat): nat {
    if cfg & PLL_REFSEL != 0 then pllref else pllsel0
  }

  /** get_rate_hz as a function of the two register values and the rates of the two input clocks. */
  function RateHz(cfg: bv32, div: bv32, pllref: nat, pllsel0: nat): int {
    if cfg & PLL_SEL == 0 then pllsel0
    else
      var ref := RefHz(cfg, pllref, pllsel0);
      if cfg & PLL_BYPASS != 0 then ref
      else if FieldQ(cfg) == 0 then -1
      else
        FieldRanges(cfg, div);
        var out := Div(Div(ref, FieldR(cfg) + 1) * (2 * (FieldF(cfg) + 1)), QDiv(FieldQ(cfg)));
        if div & DIV_1 != 0 then out else Div(out, 2 * (FieldDiv(div) + 1))
  }

  /** A row value as register bits. */
  function FieldBits(x: nat): bv32
    requires x < 64
  {
    (x as bv6) as bv32
  }

  /** reg & ~mask, and reg | bits */
  function Cleared(reg: bv32, mask: bv32): bv32 { reg & !mask }
  function Merged(reg: bv32, bits: bv32): bv32 { reg | bits }

  /** A field cleared first, its new bits ORed in after. */
  function WithField(reg: bv32, mask: bv32, bits: bv32): bv32 {
    Merged(Cleared(reg, mask), bits & mask)
  }

  function WithFields(cfg: bv32, r: bv32, f: bv32, q: bv32): bv32 {
    Cleared(WithField(WithField(WithField(cfg, PLL_R, r), PLL_F, f << 4), PLL_Q, q << 10), PLL_BYPASS)
  }

  /** What configure_pll leaves in the two registers. */
  function CfgFor(cfg: bv32, c: PllConfig): bv32
    requires RowOk(c)
  {
    WithFields(cfg, FieldBits(c.r), FieldBits(c.f), FieldBits(c.q))
  }

  function DivFor(div: bv32, c: PllConfig): bv32
    requires RowOk(c)
  {
    if c.d < 0 then DividedBy1(div) else DividedBy(div, FieldBits(c.d))
  }

  function DividedBy1(div: bv32): bv32 { ((div | DIV_1) & !DIV_DIV) | (1 & DIV_DIV) }
  function DividedBy(div: bv32, d: bv32): bv32 { ((div & !DIV_1) & !DIV_DIV) | (d & DIV_DIV) }

  /** A row value that fits its field survives the trip into the field and back. */
  lemma FieldFits(x: nat, n: nat)
    requires x < n && (n == 4 || n == 8 || n == 64)
    ensures FieldBits(x) as nat == x
    ensures n == 4 ==> FieldBits(x) & 3 == FieldBits(x)
    ensures n == 8 ==> FieldBits(x) & 7 == FieldBits(x)
    ensures FieldBits(x) & 63 == FieldBits(x)
  {
    assert (x as bv6) as nat == x;
    Widen(x as bv6);
  }

  lemma Widen(b: bv6)
    ensures (b as bv32) as nat == b as nat && (b as bv32) & 63 == b as bv32
    ensures b as nat < 4 ==> (b as bv32) & 3 == b as bv32
    ensures b as nat < 8 ==> (b as bv32) & 7 == b as bv32
  {
  }

  lemma CfgBits(cfg: bv32, r: bv32, f: bv32, q: bv32)
    requires r & 7 == r && f & 63 == f && q & 3 == q
    ensures var p := WithFields(cfg, r, f, q);
            && p & PLL_R == r && (p & PLL_F) >> 4 == f && (p & PLL_Q) >> 10 == q
            && p & PLL_BYPASS == 0
            && p & PLL_SEL == cfg & PLL_SEL && p & PLL_REFSEL == cfg & PLL_REFSEL
            && p & !0x0004_0FF7 == cfg & !0x0004_0FF7
  {
  }

  lemma CfgFields(cfg: bv32, c: PllConfig)
    requires RowOk(c)
    ensures var p := CfgFor(cfg, c);
            && FieldR(p) == c.r && FieldF(p) == c.f && FieldQ(p) == c.q
            && p & PLL_BYPASS == 0
            && p & PLL_SEL == cfg & PLL_SEL && p & PLL_REFSEL == cfg & PLL_REFSEL
            && p & !0x0004_0FF7 == cfg & !0x0004_0FF7
  {
    hide FieldBits, WithFields;
    FieldFits(c.r, 8);
    FieldFits(c.f, 64);
    FieldFits(c.q, 4);
    CfgBits(cfg, FieldBits(c.r), FieldBits(c.f), FieldBits(c.q));
  }

  lemma DividerOff(div: bv32)
    ensures DividedBy1(div) & DIV_1 != 0 && DividedBy1(div) & DIV_DIV == 1
    ensures DividedBy1(div) & !0x0000_013F == div & !0x0000_013F
  {
  }

  lemma DividerOn(div: bv32, d: bv32)
    requires d & 63 == d
    ensures DividedBy(div, d) & DIV_1 == 0 && DividedBy(div, d) & DIV_DIV == d
  {
  }

  lemma DividerFrame(div: bv32, d: bv32)
    ensures DividedBy(div, d) & !0x0000_013F == div & !0x0000_013F
  {
  }

  lemma DivFields(div: bv32, c: PllConfig)
    requires RowOk(c)
    ensures var p := DivFor(div, c);
            && (p & DIV_1 != 0 <==> c.d < 0)
            && FieldDiv(p) == (if c.d >= 0 then c.d else 1)
            && p & !0x0000_013F == div & !0x0000_013F
  {
    hide FieldBits, DividedBy, DividedBy1;
    if c.d >= 0 {
      FieldFits(c.d, 64);
      DividerOn(div, FieldBits(c.d));
      DividerFrame(div, FieldBits(c.d));
    } else {
      DividerOff(div);
    }
  }

  /** With a row programmed and the PLL selected, the rate read back is the row's three stages. */
  lemma RateOfRow(cfg: bv32, div: bv32, c: PllConfig, pllref: nat, pllsel0: nat)
    requires RowOk(c) && cfg & PLL_SEL != 0 && cfg & PLL_BYPASS == 0
    requires FieldR(cfg) == c.r && FieldF(cfg) == c.f && FieldQ(cfg) == c.q
    requires (div & DIV_1 != 0 <==> c.d < 0) && (c.d >= 0 ==> FieldDiv(div) == c.d)
    ensures RateHz(cfg, div, pllref, pllsel0) == Stages(RefHz(cfg, pllref, pllsel0), c.r, c.f, c.q, OutDiv(c))
  {
    hide FieldR, FieldF, FieldQ, FieldDiv, RefHz, Div, QDiv;
    DivByOne(Div(Div(RefHz(cfg, pllref, pllsel0), c.r + 1) * (2 * (c.f + 1)), QDiv(c.q)));
  }

  lemma DivByOne(x: nat)
    ensures Div(x, 1) == x
  {
  }

  // ---------------------------------------------------------------- step safety

  /** One access to the registers; a divider write also records the configuration at that moment. */
  datatype Access = Read(value: bv32) | Write(before: bv32, after: bv32) | WriteDiv(cfg: bv32, after: bv32)

  ghost predicate Harmless(e: Access) {
    e.Read? || (e.Write? && (e.before ^ e.after) & PROTECTED == 0)
  }

  /** Some read has found the PLL locked, and no field it depends on has been written since. */
  ghost predicate LockedSince(log: seq<Access>) {
    log != [] &&
    var e := log[|log| - 1];
    (e.Read? && e.value & PLL_LOCK != 0) || (Harmless(e) && LockedSince(log[..|log| - 1]))
  }

  /** The core clock is taken from the PLL. */
  predicate OnPll(cfg: bv32) { cfg & PLL_SEL != 0 }

  /** While PLL_SEL is 1 nothing but PLL_SEL may be written; PLL_SEL is set only when the PLL is
      bypassed or known to be locked. */
  ghost predicate StepSafe(log: seq<Access>, e: Access) {
    match e
    case Read(_) => true
    case WriteDiv(cfg, _) => !OnPll(cfg)
    case Write(before, after) =>
      && (OnPll(before) ==> Harmless(e))
      && (!OnPll(before) && OnPll(after) ==> after & PLL_BYPASS != 0 || LockedSince(log))
  }

  ghost predicate Safe(log: seq<Access>) {
    log == [] || (Safe(log[..|log| - 1]) && StepSafe(log[..|log| - 1], log[|log| - 1]))
  }

  /** Safe speaks about every access of the log, not just the last one. */
  lemma {:induction false} SafeEverywhere(log: seq<Access>, k: nat)
    requires Safe(log) && k < |log|
    ensures StepSafe(log[..k], log[k])
  {
    var n := |log| - 1;
    if k < n {
      SafeEverywhere(log[..n], k);
      assert log[..n][..k] == log[..k];
    }
  }

  /** What that means for each access of a safe log, field by field: with PLL_SEL 1 a write leaves R, F, Q, REFSEL
      and BYPASS as they are and the output divider is not written; and PLL_SEL is set only with BYPASS set, or
      after a read that found the lock bit set with nothing but harmless accesses in between. */
  lemma SafeMeans(log: seq<Access>, k: nat)
    requires Safe(log) && k < |log|
    ensures log[k].WriteDiv? ==> log[k].cfg & 0x0001_0000 == 0
    ensures log[k].Write? && log[k].before & 0x0001_0000 != 0 ==>
              log[k].before & 0x0006_0FF7 == log[k].after & 0x0006_0FF7
    ensures log[k].Write? && log[k].before & 0x0001_0000 == 0 && log[k].after & 0x0001_0000 != 0 ==>
              log[k].after & 0x0004_0000 != 0 || exists j :: LockSeen(log, j, k)
  {
    hide LockedSince, Safe, LockSeen, StepSafe;
    SafeEverywhere(log, k);
    StepMeans(log[..k], log[k]);
    if LockedSince(log[..k]) {
      var j := LockWasSeen(log[..k]);
      SeenInPrefix(log, j, k);
    }
  }

  /** Access j read the lock bit as 1, and nothing after it and before access k wrote a field or the divider. */
  ghost predicate LockSeen(log: seq<Access>, j: int, k: nat)
    requires k <= |log|
  {
    && 0 <= j < k && log[j].Read? && log[j].value & 0x8000_0000 != 0
    && forall i :: j < i < k ==>
         log[i].Read? || (log[i].Write? && log[i].before & 0x0006_0FF7 == log[i].after & 0x0006_0FF7)
  }

  lemma StepMeans(log: seq<Access>, e: Access)
    requires StepSafe(log, e)
    ensures e.WriteDiv? ==> e.cfg & 0x0001_0000 == 0
    ensures e.Write? && e.before & 0x0001_0000 != 0 ==> e.before & 0x0006_0FF7 == e.after & 0x0006_0FF7
    ensures e.Write? && e.before & 0x0001_0000 == 0 && e.after & 0x0001_0000 != 0 ==>
              e.after & 0x0004_0000 != 0 || LockedSince(log)
  {
    hide LockedSince;
    if e.Write? { SameWhereProtected(e.before, e.after); }
  }

  lemma SeenInPrefix(log: seq<Access>, j: int, k: nat)
    requires k <= |log| && LockSeen(log[..k], j, k)
    ensures LockSeen(log, j, k)
  {
    assert forall i :: 0 <= i < k ==> log[..k][i] == log[i];
  }

  lemma {:induction false} LockWasSeen(log: seq<Access>) returns (j: int)
    requires LockedSince(log)
    ensures LockSeen(log, j, |log|)
  {
    var n := |log| - 1;
    if log[n].Read? && log[n].value & PLL_LOCK != 0 {
      j := n;
    } else {
      j := LockWasSeen(log[..n]);
      if log[n].Write? { SameWhereProtected(log[n].before, log[n].after); }
      assert forall i :: 0 <= i < n ==> log[..n][i] == log[i];
    }
  }

  lemma SameWhereProtected(a: bv32, b: bv32)
    ensures (a ^ b) & PROTECTED == 0 <==> a & 0x0006_0FF7 == b & 0x0006_0FF7
  {
  }

  ghost predicate SameButLock(a: bv32, b: bv32) { a & !PLL_LOCK == b & !PLL_LOCK }

  lemma SafeExtend(log: seq<Access>, e: Access)
    requires Safe(log) && StepSafe(log, e)
    ensures Safe(log + [e])
    ensures Harmless(e) && LockedSince(log) ==> LockedSince(log + [e])
    ensures e.Read? && e.value & PLL_LOCK != 0 ==> LockedSince(log + [e])
  {
    assert (log + [e])[..|log + [e]| - 1] == log;
  }

  /** The hardware write: every bit but the read-only lock bit takes the stored value. */
  function Stored(before: bv32, v: bv32): bv32 {
    (v & !PLL_LOCK) | (before & PLL_LOCK)
  }

  function WithLock(cfg: bv32, locked: bool): bv32 {
    if locked then cfg | PLL_LOCK else cfg & !PLL_LOCK
  }

  lemma LockBit(cfg: bv32, locked: bool)
    ensures SameButLock(WithLock(cfg, locked), cfg)
    ensures WithLock(cfg, locked) & PLL_LOCK != 0 <==> locked
  {
  }

  /** The two registers.  The lock bit follows the hardware: it may come and go on its own, but after
      a configuration write at most `lockDelay` further reads find it clear. */
  class Prci {
    var pllcfg: bv32
    var plloutdiv: bv32
    var lockDelay: nat
    ghost var log: seq<Access>

    method ReadCfg() returns (v: bv32)
      modifies `pllcfg, `lockDelay, `log
      ensures v == pllcfg && SameButLock(pllcfg, old(pllcfg)) && log == old(log) + [Read(v)]
      ensures lockDelay <= old(lockDelay) && (v & PLL_LOCK == 0 ==> lockDelay < old(lockDelay))
    {
      hide WithLock, SameButLock;
      var locked: bool := *;
      if lockDelay == 0 { locked := true; }
      LockBit(pllcfg, locked);
      pllcfg := WithLock(pllcfg, locked);
      lockDelay := if lockDelay > 0 then lockDelay - 1 else 0;
      v := pllcfg;
      log := log + [Read(v)];
    }

    method WriteCfg(v: bv32)
      modifies `pllcfg, `lockDelay, `log
      ensures pllcfg == Stored(old(pllcfg), v) && log == old(log) + [Write(old(pllcfg), pllcfg)]
    {
      ghost var before := pllcfg;
      pllcfg := Stored(pllcfg, v);
      lockDelay := *;
      log := log + [Write(before, pllcfg)];
    }

    method WriteOutDiv(v: bv32)
      modifies `plloutdiv, `lockDelay, `log
      ensures plloutdiv == v && log == old(log) + [WriteDiv(pllcfg, v)]
    {
      plloutdiv := v;
      lockDelay := *;
      log := log + [WriteDiv(pllcfg, v)];
    }

    /** pllcfg &= ~mask, for a register known to hold `g` up to the lock bit. */
    method ClearCfg(mask: bv32, ghost g: bv32)
      requires Safe(log) && SameButLock(pllcfg, g) && (!OnPll(pllcfg) || mask == PLL_SEL)
      modifies `pllcfg, `lockDelay, `log
      ensures Safe(log) && SameButLock(pllcfg, Cleared(g, mask)) && !OnPll(pllcfg)
    {
      hide SameButLock, Cleared, Stored, OnPll, Safe, LockedSince;
      var v := ReadCfg();
      ghost var log1 := log;
      SafeExtend(old(log), Read(v));
      LockMayChange(v, old(pllcfg), g);
      WriteCfg(Cleared(v, mask));
      ClearIsSafe(g, v, mask);
      SafeExtend(log1, Write(v, pllcfg));
    }

    /** pllcfg |= bits */
    method OrCfg(bits: bv32, ghost g: bv32)
      requires Safe(log) && SameButLock(pllcfg, g) && !OnPll(pllcfg)
      requires OnPll(bits) ==> pllcfg & PLL_BYPASS != 0 || LockedSince(log)
      modifies `pllcfg, `lockDelay, `log
      ensures Safe(log) && SameButLock(pllcfg, Merged(g, bits)) && OnPll(pllcfg) == OnPll(bits)
    {
      hide SameButLock, Merged, Stored, OnPll, Safe, LockedSince;
      var v := ReadCfg();
      ghost var log1 := log;
      SafeExtend(old(log), Read(v));
      LockIsNoField(v, old(pllcfg));
      LockMayChange(v, old(pllcfg), g);
      WriteCfg(Merged(v, bits));
      OrIsSafe(g, v, bits);
      SafeExtend(log1, Write(v, pllcfg));
    }

    method SetOutDiv(v: bv32)
      requires Safe(log) && !OnPll(pllcfg)
      modifies `plloutdiv, `lockDelay, `log
      ensures Safe(log) && plloutdiv == v
    {
      WriteOutDiv(v);
      SafeExtend(old(log), WriteDiv(pllcfg, v));
    }

    method SetField(mask: bv32, bits: bv32, ghost g: bv32)
      requires Safe(log) && SameButLock(pllcfg, g) && !OnPll(pllcfg) && !OnPll(mask)
      modifies `pllcfg, `lockDelay, `log
      ensures Safe(log) && SameButLock(pllcfg, WithField(g, mask, bits)) && !OnPll(pllcfg)
    {
      hide SameButLock, Safe, OnPll, Cleared, Merged;
      AvoidsSel(mask, bits);
      ClearCfg(mask, g);
      OrCfg(bits & mask, Cleared(g, mask));
    }

    method ConfigureDivider(c: PllConfig)
      requires RowOk(c) && Safe(log) && !OnPll(pllcfg)
      modifies `plloutdiv, `lockDelay, `log
      ensures Safe(log) && plloutdiv == DivFor(old(plloutdiv), c)
    {
      if c.d < 0 {
        SetOutDiv(plloutdiv | DIV_1);
        SetOutDiv(plloutdiv & !DIV_DIV);
        SetOutDiv(plloutdiv | (1 & DIV_DIV));
      } else {
        SetOutDiv(plloutdiv & !DIV_1);
        SetOutDiv(plloutdiv & !DIV_DIV);
        SetOutDiv(plloutdiv | (FieldBits(c.d) & DIV_DIV));
      }
    }

    method ConfigurePll(c: PllConfig)
      requires RowOk(c) && Safe(log) && !OnPll(pllcfg)
      modifies this
      ensures Safe(log) && LockedSince(log) && !OnPll(pllcfg)
      ensures SameButLock(pllcfg, CfgFor(old(pllcfg), c)) && plloutdiv == DivFor(old(plloutdiv), c)
    {
      hide FieldBits, SameButLock, DivFor, OnPll, Safe, LockedSince, WithField, Cleared;
      FieldsAvoidSel();
      SameAsItself(pllcfg);
      ghost var g := pllcfg;
      SetField(PLL_R, FieldBits(c.r), g);
      g := WithField(g, PLL_R, FieldBits(c.r));
      SetField(PLL_F, FieldBits(c.f) << 4, g);
      g := WithField(g, PLL_F, FieldBits(c.f) << 4);
      SetField(PLL_Q, FieldBits(c.q) << 10, g);
      g := WithField(g, PLL_Q, FieldBits(c.q) << 10);
      ConfigureDivider(c);
      ClearCfg(PLL_BYPASS, g);
      WaitForLock(Cleared(g, PLL_BYPASS));
    }

    /** while ((pllcfg & PLL_LOCK) == 0) ; */
    method WaitForLock(ghost g: bv32)
      requires Safe(log) && SameButLock(pllcfg, g) && !OnPll(pllcfg)
      modifies `pllcfg, `lockDelay, `log
      ensures Safe(log) && LockedSince(log) && SameButLock(pllcfg, g) && !OnPll(pllcfg)
    {
      hide SameButLock, Safe;
      var v := ReadCfg();
      SafeExtend(old(log), Read(v));
      LockMayChange(v, old(pllcfg), g);
      while v & PLL_LOCK == 0
        invariant v == pllcfg && Safe(log) && SameButLock(pllcfg, g) && !OnPll(pllcfg)
        invariant v & PLL_LOCK != 0 ==> LockedSince(log)
        decreases lockDelay, if v & PLL_LOCK == 0 then 1 else 0
      {
        ghost var log1, old' := log, pllcfg;
        v := ReadCfg();
        SafeExtend(log1, Read(v));
        LockMayChange(v, old', g);
      }
    }

    /** A read of pllcfg whose value only decides what to do next. */
    method Peek() returns (v: bv32)
      requires Safe(log)
      modifies `pllcfg, `lockDelay, `log
      ensures Safe(log) && v == pllcfg && SameFields(v, old(pllcfg)) && OnPll(v) == OnPll(old(pllcfg))
      ensures LockedSince(old(log)) ==> LockedSince(log)
    {
      v := ReadCfg();
      SafeExtend(old(log), Read(v));
      LockIsNoField(v, old(pllcfg));
    }

    method GetRateHz(pllref: nat, pllsel0: nat) returns (r: int)
      requires Safe(log)
      modifies `pllcfg, `lockDelay, `log
      ensures Safe(log) && OnPll(pllcfg) == OnPll(old(pllcfg)) && SameFields(pllcfg, old(pllcfg))
      ensures r == RateHz(pllcfg, plloutdiv, pllref, pllsel0)
      ensures pllcfg & 0x0001_0000 == 0 ==> r == pllsel0
    {
      hide RateHz;
      var cfg := Peek();
      RateWithoutPll(cfg, plloutdiv, pllref, pllsel0);
      r := RateHz(cfg, plloutdiv, pllref, pllsel0);
    }

    /** Nothing may be changed while coreclk is driven by the PLL, so it is switched off first. */
    method SwitchOff()
      requires Safe(log)
      modifies `pllcfg, `lockDelay, `log
      ensures Safe(log) && !OnPll(pllcfg) && SameFields(pllcfg, old(pllcfg))
    {
      hide Safe, LockedSince, SameButLock, SameFields, OnPll, Cleared;
      var v := Peek();
      if OnPll(v) {
        SameAsItself(v);
        ClearCfg(PLL_SEL, v);
        SelIsNoField(v, pllcfg, old(pllcfg));
      }
    }

    /** pllcfg |= PLL_BYPASS */
    method Bypass()
      requires Safe(log) && !OnPll(pllcfg)
      modifies `pllcfg, `lockDelay, `log
      ensures Safe(log) && !OnPll(pllcfg) && pllcfg & PLL_BYPASS != 0
      ensures pllcfg & PLL_REFSEL == old(pllcfg) & PLL_REFSEL
    {
      hide Safe, LockedSince;
      OrCfg(PLL_BYPASS, pllcfg);
    }

    /** pllcfg |= PLL_SEL */
    method SelectPll()
      requires Safe(log) && !OnPll(pllcfg) && (pllcfg & PLL_BYPASS != 0 || LockedSince(log))
      modifies `pllcfg, `lockDelay, `log
      ensures Safe(log) && OnPll(pllcfg) && SameFields(pllcfg, old(pllcfg))
    {
      hide Safe, LockedSince;
      OrCfg(PLL_SEL, pllcfg);
    }

    /** The middle of set_rate_hz: bypass the PLL, or program the closest row. */
    method Choose(rate: int, ref: nat) returns (ghost row: int)
      requires Safe(log) && !OnPll(pllcfg) && RateInRange(rate) && 5 * ref <= LONG_MAX
      modifies this
      ensures Safe(log) && !OnPll(pllcfg) && pllcfg & PLL_REFSEL == old(pllcfg) & PLL_REFSEL
      ensures row == -1 ==>
                && pllcfg & PLL_BYPASS != 0
                && (InBypassWindow(rate, ref) || forall k :: 0 <= k < CONFIGS ==> PredictedRow(ref, k) == -1)
      ensures row != -1 ==>
                && 0 <= row < CONFIGS && !InBypassWindow(rate, ref) && Closest(ref, rate, row)
                && LockedSince(log) && HoldsRow(pllcfg, plloutdiv, Config(row))
    {
      hide Safe, LockedSince, OnPll, SameButLock, CfgFor, DivFor, PredictedRow, Closest, RateInRange, RowOk, HoldsRow,
           Config, InBypassWindow;
      row := -1;
      if InBypassWindow(rate, ref) {
        Bypass();
      } else {
        var index := FindClosestConfig(ref, rate);
        if index != -1 {
          row := index;
          EveryRowIsOk(index);
          ConfigurePll(Config(index));
          RowProgrammed(old(pllcfg), pllcfg, old(plloutdiv), Config(index));
        } else {
          Bypass();
        }
      }
    }

    /** The steps of set_rate_hz. */
    method Retune(rate: int, pllref: nat, pllsel0: nat) returns (r: int)
      requires Safe(log) && RateInRange(rate) && 5 * pllref <= LONG_MAX && 5 * pllsel0 <= LONG_MAX
      modifies this
      ensures Safe(log) && OnPll(pllcfg)
      ensures RateAchieved(rate, RefHz(old(pllcfg), pllref, pllsel0), r)
    {
      hide Safe, LockedSince, OnPll, SameFields, RateHz, RefHz, PredictedRow, Closest, RateInRange, HoldsRow, Config,
           InBypassWindow;
      SwitchOff();
      ghost var off := pllcfg;
      var v := Peek();
      var ref := RefHz(v, pllref, pllsel0);
      SameReference(off, old(pllcfg), pllref, pllsel0);
      SameReference(v, off, pllref, pllsel0);
      ghost var row := Choose(rate, ref);
      ghost var chosen := pllcfg;
      SameRefsel(chosen, v, pllref, pllsel0);
      SelectPll();
      ghost var on := pllcfg;
      SameReference(on, chosen, pllref, pllsel0);
      r := GetRateHz(pllref, pllsel0);
      SameReference(pllcfg, on, pllref, pllsel0);
      if row == -1 {
        BypassStays(on, chosen);
        BypassStays(pllcfg, on);
        BypassedRate(pllcfg, plloutdiv, pllref, pllsel0);
      } else {
        RowStays(on, chosen, plloutdiv, Config(row));
        RowStays(pllcfg, on, plloutdiv, Config(row));
        RowRate(pllcfg, plloutdiv, rate, row, pllref, pllsel0);
        ClosestIsValid(ref, rate, row);
      }
    }

    /** Switch off the PLL, reprogram or bypass it, switch it on, read the rate back.  Every access is
        safe; and the rate read back is the reference rate when that is close enough to the request
        or no row is valid, and otherwise 0 to 42 Hz below the rate of a row closest to the request. */
    method SetRateHz(rate: int, pllref: nat, pllsel0: nat) returns (r: int)
      requires Safe(log) && RateInRange(rate) && 5 * pllref <= LONG_MAX && 5 * pllsel0 <= LONG_MAX
      modifies this
      ensures Safe(log) && OnPll(pllcfg)
      ensures RateAchieved(rate, RefHz(old(pllcfg), pllref, pllsel0), r)
      ensures var ref := if old(pllcfg) & 0x0002_0000 != 0 then pllref else pllsel0;
              && (3 * ref <= 4 * rate + 3 && 4 * rate <= 5 * ref ==> r == ref)
              && ((4 * rate + 4 <= 3 * ref || 4 * rate > 5 * ref) && 6_000_000 <= ref <= 48_000_000 ==>
                    forall k :: 0 <= k < CONFIGS && PredictedRow(ref, k) != -1 ==>
                      Abs(r - rate) <= Abs(PredictedRow(ref, k) - rate) + MAX_ERROR)
    {
      hide Safe, OnPll, RateAchieved, RefHz, RateInRange, PredictedRow, Abs;
      r := Retune(rate, pllref, pllsel0);
      ReferenceMeans(old(pllcfg), pllref, pllsel0);
      AchievedMeans(rate, RefHz(old(pllcfg), pllref, pllsel0), r);
    }

    /** The whole initialisation between the clock's callbacks: off the PLL, onto the external
        oscillator if there is one, then to the wanted rate. */
    method PllInit(hasPllref: bool, rate: int, pllref: nat, pllsel0: nat) returns (r: int)
      requires Safe(log) && RateInRange(rate) && 5 * pllref <= LONG_MAX && 5 * pllsel0 <= LONG_MAX
      modifies this
      ensures Safe(log) && OnPll(pllcfg)
      ensures RateAchieved(rate, if hasPllref then pllref else RefHz(old(pllcfg), pllref, pllsel0), r)
      ensures var ref := if hasPllref || old(pllcfg) & 0x0002_0000 != 0 then pllref else pllsel0;
              && (3 * ref <= 4 * rate + 3 && 4 * rate <= 5 * ref ==> r == ref)
              && ((4 * rate + 4 <= 3 * ref || 4 * rate > 5 * ref) && 6_000_000 <= ref <= 48_000_000 ==>
                    forall k :: 0 <= k < CONFIGS && PredictedRow(ref, k) != -1 ==>
                      Abs(r - rate) <= Abs(PredictedRow(ref, k) - rate) + MAX_ERROR)
    {
      hide Safe, LockedSince, RateAchieved, RateInRange, PredictedRow, Abs;
      SwitchOff();
      if hasPllref { OrCfg(PLL_REFSEL, pllcfg); }
      r := SetRateHz(rate, pllref, pllsel0);
    }
  }

  /** What a caller of set_rate_hz gets back, given the rate of the PLL's input clock. */
  ghost predicate RateAchieved(rate: int, ref: nat, r: int) {
    if InBypassWindow(rate, ref) || forall k :: 0 <= k < CONFIGS ==> PredictedRow(ref, k) == -1 then r == ref
    else exists i :: Closest(ref, rate, i) && r <= PredictedRow(ref, i) <= r + MAX_ERROR
  }

  /** The wanted rate is within 75% to 125% of the input. */
  predicate InBypassWindow(rate: int, ref: nat) {
    ref * 3 / 4 <= rate && rate <= ref * 5 / 4
  }

  /** The window reaches from 75% to 125% of the input: below by rounding as far as the last rate whose
      fourfold is more than 3*ref - 4. */
  lemma WindowMeans(rate: int, ref: nat)
    ensures InBypassWindow(rate, ref) <==> 3 * ref <= 4 * rate + 3 && 4 * rate <= 5 * ref
  {
  }

  /** What that is worth to a caller, in terms of the two rates alone. */
  lemma AchievedMeans(rate: int, ref: nat, r: int)
    requires RateAchieved(rate, ref, r)
    ensures 3 * ref <= 4 * rate + 3 && 4 * rate <= 5 * ref ==> r == ref
    ensures (4 * rate + 4 <= 3 * ref || 4 * rate > 5 * ref) && 6_000_000 <= ref <= 48_000_000 ==>
              forall k :: 0 <= k < CONFIGS && PredictedRow(ref, k) != -1 ==>
                Abs(r - rate) <= Abs(PredictedRow(ref, k) - rate) + MAX_ERROR
  {
    hide PredictedRow, InBypassWindow;
    WindowMeans(rate, ref);
    if !InBypassWindow(rate, ref) && 6_000_000 <= ref <= 48_000_000 {
      SomeRowIsValid(ref);
      forall k | 0 <= k < CONFIGS && PredictedRow(ref, k) != -1
        ensures Abs(r - rate) <= Abs(PredictedRow(ref, k) - rate) + MAX_ERROR
      {
        EndToEnd(rate, ref, r, k);
      }
    }
  }

  /** get_rate_hz where the PLL itself plays no part. */
  lemma RateWithoutPll(cfg: bv32, div: bv32, pllref: nat, pllsel0: nat)
    ensures cfg & 0x0001_0000 == 0 ==> RateHz(cfg, div, pllref, pllsel0) == pllsel0
    ensures cfg & 0x0001_0000 != 0 && cfg & 0x0004_0000 != 0 ==>
              RateHz(cfg, div, pllref, pllsel0) == if cfg & 0x0002_0000 != 0 then pllref else pllsel0
    ensures cfg & 0x0001_0000 != 0 && cfg & 0x0004_0000 == 0 && cfg & 0x0000_0C00 == 0 ==>
              RateHz(cfg, div, pllref, pllsel0) == -1
  {
    hide Div, QDiv;
    if cfg & 0x0000_0C00 == 0 { ZeroQ(cfg); }
  }

  lemma ZeroQ(cfg: bv32)
    requires cfg & 0x0000_0C00 == 0
    ensures FieldQ(cfg) == 0
  {
    assert (cfg & PLL_Q) >> 10 == 0;
  }

  lemma ReferenceMeans(cfg: bv32, pllref: nat, pllsel0: nat)
    ensures RefHz(cfg, pllref, pllsel0) == if cfg & 0x0002_0000 != 0 then pllref else pllsel0
  {
  }

  /** Equal in every field but PLL_SEL and the lock bit. */
  ghost predicate SameFields(a: bv32, b: bv32) {
    && a & PLL_R == b & PLL_R && a & PLL_F == b & PLL_F && a & PLL_Q == b & PLL_Q
    && a & PLL_REFSEL == b & PLL_REFSEL && a & PLL_BYPASS == b & PLL_BYPASS
  }

  lemma SelIsNoField(v: bv32, w: bv32, u: bv32)
    requires SameFields(v, u) && SameButLock(w, Cleared(v, PLL_SEL))
    ensures SameFields(w, u)
  {
  }

  lemma SameReference(a: bv32, b: bv32, pllref: nat, pllsel0: nat)
    requires SameFields(a, b)
    ensures RefHz(a, pllref, pllsel0) == RefHz(b, pllref, pllsel0)
    ensures RefHz(a, pllref, pllsel0) in {pllref, pllsel0}
  {
  }

  lemma ClosestIsValid(ref: nat, rate: int, i: nat)
    requires Closest(ref, rate, i)
    ensures i < CONFIGS && PredictedRow(ref, i) != -1
  {
  }

  /** The choice is deterministic: there is one closest row. */
  lemma ClosestIsUnique(ref: nat, rate: int, i: nat, j: nat)
    requires Closest(ref, rate, i) && Closest(ref, rate, j)
    ensures i == j
  {
    hide PredictedRow, Abs;
  }

  /** For a 6 to 48 MHz input and a rate outside the bypass window, the achieved rate misses the
      request by at most 42 Hz more than any row of the table would. */
  lemma EndToEnd(rate: int, ref: nat, r: int, k: nat)
    requires 6_000_000 <= ref <= 48_000_000 && !InBypassWindow(rate, ref) && RateAchieved(rate, ref, r)
    requires k < CONFIGS && PredictedRow(ref, k) != -1
    ensures exists i :: Closest(ref, rate, i) && r <= PredictedRow(ref, i) <= r + MAX_ERROR
    ensures Abs(r - rate) <= Abs(PredictedRow(ref, k) - rate) + MAX_ERROR
  {
    hide PredictedRow;
    var i :| Closest(ref, rate, i) && r <= PredictedRow(ref, i) <= r + MAX_ERROR;
    assert Abs(PredictedRow(ref, i) - rate) <= Abs(PredictedRow(ref, k) - rate);
  }

  /** Such an input always has a row to choose. */
  lemma SomeRowIsValid(ref: nat)
    requires 6_000_000 <= ref <= 48_000_000
    ensures exists k :: 0 <= k < CONFIGS && PredictedRow(ref, k) != -1
  {
    EveryInputHasARow(ref);
    var k :| 0 <= k < CONFIGS && Config(k).minInput <= ref <= Config(k).maxInput;
    EveryRowIsOk(k);
    NoOverflow(ref, Config(k));
    assert PredictedRow(ref, k) != -1;
  }

  /** The registers hold a row, with the bypass off. */
  ghost predicate HoldsRow(cfg: bv32, div: bv32, c: PllConfig) {
    && FieldR(cfg) == c.r && FieldF(cfg) == c.f && FieldQ(cfg) == c.q
    && cfg & PLL_BYPASS == 0
    && (div & DIV_1 != 0 <==> c.d < 0) && (c.d >= 0 ==> FieldDiv(div) == c.d)
  }

  lemma RowProgrammed(before: bv32, after: bv32, div: bv32, c: PllConfig)
    requires RowOk(c) && SameButLock(after, CfgFor(before, c))
    ensures HoldsRow(after, DivFor(div, c), c)
    ensures after & PLL_REFSEL == before & PLL_REFSEL
  {
    hide CfgFor, DivFor, RowOk;
    CfgFields(before, c);
    DivFields(div, c);
    LockIsNoField(after, CfgFor(before, c));
  }

  lemma RowStays(a: bv32, b: bv32, div: bv32, c: PllConfig)
    requires SameFields(a, b) && HoldsRow(b, div, c)
    ensures HoldsRow(a, div, c)
  {
  }

  lemma BypassStays(a: bv32, b: bv32)
    requires SameFields(a, b) && b & PLL_BYPASS != 0
    ensures a & PLL_BYPASS != 0
  {
  }

  lemma BypassedRate(cfg: bv32, div: bv32, pllref: nat, pllsel0: nat)
    requires OnPll(cfg) && cfg & PLL_BYPASS != 0
    ensures RateHz(cfg, div, pllref, pllsel0) == RefHz(cfg, pllref, pllsel0)
  {
  }

  lemma RowRate(cfg: bv32, div: bv32, rate: int, row: nat, pllref: nat, pllsel0: nat)
    requires row < CONFIGS && OnPll(cfg) && HoldsRow(cfg, div, Config(row))
    requires Closest(RefHz(cfg, pllref, pllsel0), rate, row)
    ensures var r := RateHz(cfg, div, pllref, pllsel0);
            r <= PredictedRow(RefHz(cfg, pllref, pllsel0), row) <= r + MAX_ERROR
  {
    hide RateHz, RefHz, RowOk;
    EveryRowIsOk(row);
    RateOfRow(cfg, div, Config(row), pllref, pllsel0);
    ReadBackBound(RefHz(cfg, pllref, pllsel0), Config(row));
  }

  lemma SameRefsel(a: bv32, b: bv32, pllref: nat, pllsel0: nat)
    requires a & PLL_REFSEL == b & PLL_REFSEL
    ensures RefHz(a, pllref, pllsel0) == RefHz(b, pllref, pllsel0)
  {
  }

  lemma SameAsItself(a: bv32)
    ensures SameButLock(a, a)
  {
  }

  lemma LockMayChange(a: bv32, b: bv32, g: bv32)
    requires SameButLock(a, b) && SameButLock(b, g)
    ensures SameButLock(a, g) && OnPll(a) == OnPll(b)
  {
  }

  lemma FieldsAvoidSel()
    ensures !OnPll(PLL_R) && !OnPll(PLL_F) && !OnPll(PLL_Q)
  {
  }

  lemma AvoidsSel(mask: bv32, bits: bv32)
    requires !OnPll(mask)
    ensures !OnPll(bits & mask)
  {
  }

  lemma LockIsNoField(a: bv32, b: bv32)
    requires SameButLock(a, b)
    ensures OnPll(a) == OnPll(b) && SameFields(a, b)
  {
  }

  lemma ClearIsSafe(g: bv32, v: bv32, mask: bv32)
    requires SameButLock(v, g) && (!OnPll(v) || mask == PLL_SEL)
    ensures SameButLock(Stored(v, Cleared(v, mask)), Cleared(g, mask)) && !OnPll(Stored(v, Cleared(v, mask)))
    ensures OnPll(v) ==> (v ^ Stored(v, Cleared(v, mask))) & PROTECTED == 0
  {
  }

  lemma OrIsSafe(g: bv32, v: bv32, bits: bv32)
    requires SameButLock(v, g) && !OnPll(v)
    ensures SameButLock(Stored(v, Merged(v, bits)), Merged(g, bits))
    ensures OnPll(Stored(v, Merged(v, bits))) == OnPll(bits)
    ensures v & PLL_BYPASS != 0 ==> Stored(v, Merged(v, bits)) & PLL_BYPASS != 0
  {
  }
}
