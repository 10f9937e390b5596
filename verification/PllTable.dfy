/** The FE310-G000 PLL configurations and the arithmetic that ties their columns together. */
module PllTable {
  import opened Arith

  const LONG_MAX: nat := 0x7FFF_FFFF
  const MAX_OUTPUT: nat := 384_000_000
  const MAX_ERROR: nat := 42

  /** The output is multiplier/divisor times the input; r, f, q and d are the register fields that
      are meant to produce it, d < 0 meaning that the final divider is off. */
  datatype PllConfig = PllConfig(multiplier: nat, divisor: nat, minInput: nat, maxInput: nat,
                                 r: nat, f: nat, q: nat, d: int)

  const CONFIGS: nat := 68

  /** Rows 0 to 16 of pll_configs. */
  function Rows0(i: nat): PllConfig
    requires i < 17
  {
    match i
    case 0 => PllConfig(1, 32, 12000000, 24000000, 1, 31, 3, 63)
    case 1 => PllConfig(1, 32, 24000000, 48000000, 3, 31, 2, 63)
    case 2 => PllConfig(1, 16, 6000000, 12000000, 0, 31, 3, 63)
    case 3 => PllConfig(1, 16, 12000000, 24000000, 1, 31, 2, 63)
    case 4 => PllConfig(1, 16, 24000000, 48000000, 3, 31, 2, 31)
    case 5 => PllConfig(1, 8, 6000000, 12000000, 0, 31, 3, 31)
    case 6 => PllConfig(1, 8, 12000000, 24000000, 1, 31, 2, 31)
    case 7 => PllConfig(1, 8, 24000000, 48000000, 3, 31, 2, 15)
    case 8 => PllConfig(1, 4, 6000000, 12000000, 0, 31, 3, 15)
    case 9 => PllConfig(1, 4, 12000000, 24000000, 1, 31, 2, 15)
    case 10 => PllConfig(1, 4, 24000000, 48000000, 3, 31, 2, 7)
    case 11 => PllConfig(1, 2, 6000000, 12000000, 0, 31, 2, 15)
    case 12 => PllConfig(1, 2, 12000000, 24000000, 1, 31, 1, 15)
    case 13 => PllConfig(1, 2, 24000000, 48000000, 3, 31, 1, 7)
    case 14 => PllConfig(2, 1, 6000000, 12000000, 0, 31, 1, 7)
    case 15 => PllConfig(2, 1, 12000000, 24000000, 1, 31, 1, 3)
    case _ => PllConfig(2, 1, 24000000, 48000000, 3, 31, 3, -1)
  }

  /** Rows 17 to 33 of pll_configs. */
  function Rows17(i: nat): PllConfig
    requires i < 17
  {
    match i
    case 0 => PllConfig(4, 1, 6000000, 12000000, 0, 31, 3, 0)
    case 1 => PllConfig(4, 1, 12000000, 24000000, 1, 31, 3, -1)
    case 2 => PllConfig(4, 1, 24000000, 48000000, 3, 31, 2, -1)
    case 3 => PllConfig(6, 1, 6000000, 10666666, 0, 35, 1, 2)
    case 4 => PllConfig(6, 1, 10666666, 12000000, 0, 23, 3, -1)
    case 5 => PllConfig(6, 1, 12000000, 16000000, 1, 47, 3, -1)
    case 6 => PllConfig(6, 1, 16000000, 18000000, 1, 23, 2, -1)
    case 7 => PllConfig(6, 1, 18000000, 21333333, 2, 35, 2, -1)
    case 8 => PllConfig(8, 1, 6000000, 12000000, 0, 31, 3, -1)
    case 9 => PllConfig(8, 1, 12000000, 24000000, 1, 31, 2, -1)
    case 10 => PllConfig(8, 1, 24000000, 48000000, 3, 31, 1, -1)
    case 11 => PllConfig(10, 1, 6000000, 9600000, 0, 39, 3, -1)
    case 12 => PllConfig(10, 1, 9600000, 12000000, 0, 19, 2, -1)
    case 13 => PllConfig(10, 1, 12000000, 19200000, 1, 39, 2, -1)
    case 14 => PllConfig(10, 1, 19200000, 24000000, 1, 19, 1, -1)
    case 15 => PllConfig(10, 1, 24000000, 38400000, 3, 39, 1, -1)
    case _ => PllConfig(12, 1, 6000000, 8000000, 0, 47, 3, -1)
  }

  /** Rows 34 to 50 of pll_configs. */
  function Rows34(i: nat): PllConfig
    requires i < 17
  {
    match i
    case 0 => PllConfig(12, 1, 8000000, 12000000, 0, 23, 2, -1)
    case 1 => PllConfig(12, 1, 12000000, 16000000, 1, 47, 2, -1)
    case 2 => PllConfig(12, 1, 16000000, 24000000, 1, 23, 1, -1)
    case 3 => PllConfig(12, 1, 24000000, 30000000, 3, 47, 1, -1)
    case 4 => PllConfig(12, 1, 30000000, 32000000, 3, 47, 1, -1)
    case 5 => PllConfig(14, 1, 6000000, 6857142, 0, 55, 3, -1)
    case 6 => PllConfig(14, 1, 6857143, 12000000, 0, 27, 2, -1)
    case 7 => PllConfig(14, 1, 12000000, 13714285, 1, 55, 2, -1)
    case 8 => PllConfig(14, 1, 13714286, 24000000, 1, 27, 1, -1)
    case 9 => PllConfig(14, 1, 24000000, 27428571, 3, 55, 1, -1)
    case 10 => PllConfig(16, 1, 6000000, 12000000, 0, 31, 2, -1)
    case 11 => PllConfig(16, 1, 12000000, 24000000, 1, 31, 1, -1)
    case 12 => PllConfig(18, 1, 6000000, 10666666, 0, 35, 2, -1)
    case 13 => PllConfig(18, 1, 10666667, 12000000, 0, 17, 1, -1)
    case 14 => PllConfig(18, 1, 12000000, 21333333, 1, 35, 1, -1)
    case 15 => PllConfig(20, 1, 6000000, 9600000, 0, 39, 2, -1)
    case _ => PllConfig(20, 1, 9600000, 12000000, 0, 19, 1, -1)
  }

  /** Rows 51 to 67 of pll_configs. */
  function Rows51(i: nat): PllConfig
    requires i < 17
  {
    match i
    case 0 => PllConfig(20, 1, 12000000, 19200000, 1, 39, 1, -1)
    case 1 => PllConfig(22, 1, 6000000, 8727272, 0, 43, 2, -1)
    case 2 => PllConfig(22, 1, 8727273, 12000000, 0, 21, 1, -1)
    case 3 => PllConfig(22, 1, 12000000, 17454545, 1, 43, 1, -1)
    case 4 => PllConfig(24, 1, 6000000, 8000000, 0, 47, 2, -1)
    case 5 => PllConfig(24, 1, 8000000, 12000000, 0, 23, 1, -1)
    case 6 => PllConfig(24, 1, 12000000, 16000000, 1, 47, 1, -1)
    case 7 => PllConfig(26, 1, 6000000, 7384615, 0, 51, 2, -1)
    case 8 => PllConfig(26, 1, 7384616, 12000000, 0, 25, 1, -1)
    case 9 => PllConfig(26, 1, 12000000, 14768230, 1, 51, 1, -1)
    case 10 => PllConfig(28, 1, 6000000, 6857142, 0, 55, 2, -1)
    case 11 => PllConfig(28, 1, 6857143, 12000000, 0, 27, 1, -1)
    case 12 => PllConfig(28, 1, 12000000, 13714285, 1, 55, 1, -1)
    case 13 => PllConfig(30, 1, 6000000, 6400000, 0, 59, 2, -1)
    case 14 => PllConfig(30, 1, 6400000, 12000000, 0, 29, 1, -1)
    case 15 => PllConfig(30, 1, 12000000, 12800000, 1, 59, 1, -1)
    case _ => PllConfig(32, 1, 6000000, 12000000, 0, 31, 1, -1)
  }

  /** pll_configs[i] */
  function Config(i: nat): PllConfig
    requires i < CONFIGS
  {
    if i < 17 then Rows0(i) else if i < 34 then Rows17(i - 17) else if i < 51 then Rows34(i - 34) else Rows51(i - 51)
  }

  function OutDiv(c: PllConfig): (o: nat)
    requires c.d >= -1
    ensures o >= 1
  {
    if c.d < 0 then 1 else 2 * (c.d + 1)
  }

  /** 1 << q */
  function QDiv(q: nat): (o: nat)
    requires q < 4
    ensures o == Pow2(q)
  {
    if q == 0 then 1 else if q == 1 then 2 else if q == 2 then 4 else 8
  }

  /** What a row has to satisfy: the ratio in the first two columns is the one the fields produce,
      the fields fit their registers, and nothing overflows a 32-bit long on the way. */
  ghost predicate RowOk(c: PllConfig) {
    && c.r < 8 && c.f < 64 && 1 <= c.q < 4 && -1 <= c.d < 64
    && 1 <= c.divisor
    && c.multiplier * (c.r + 1) * QDiv(c.q) * OutDiv(c) == c.divisor * (2 * (c.f + 1))
    && c.r * c.multiplier <= MAX_ERROR * c.divisor
    && c.divisor <= c.minInput * c.multiplier
    && c.minInput <= c.maxInput && c.maxInput * c.multiplier <= MAX_OUTPUT
    && c.maxInput * (2 * (c.f + 1)) <= LONG_MAX * (c.r + 1)
  }

  lemma Rows0Ok(i: nat)
    requires i < 17
    ensures RowOk(Rows0(i))
  {
    match i
    case 0 => case 1 => case 2 => case 3 => case 4 => case 5 => case 6 => case 7 => case 8 => case 9 => case 10 => case 11 => case 12 => case 13 => case 14 => case 15 => case _ =>
  }

  lemma Rows17Ok(i: nat)
    requires i < 17
    ensures RowOk(Rows17(i))
  {
    match i
    case 0 => case 1 => case 2 => case 3 => case 4 => case 5 => case 6 => case 7 => case 8 => case 9 => case 10 => case 11 => case 12 => case 13 => case 14 => case 15 => case _ =>
  }

  lemma Rows34Ok(i: nat)
    requires i < 17
    ensures RowOk(Rows34(i))
  {
    match i
    case 0 => case 1 => case 2 => case 3 => case 4 => case 5 => case 6 => case 7 => case 8 => case 9 => case 10 => case 11 => case 12 => case 13 => case 14 => case 15 => case _ =>
  }

  lemma Rows51Ok(i: nat)
    requires i < 17
    ensures RowOk(Rows51(i))
  {
    match i
    case 0 => case 1 => case 2 => case 3 => case 4 => case 5 => case 6 => case 7 => case 8 => case 9 => case 10 => case 11 => case 12 => case 13 => case 14 => case 15 => case _ =>
  }

  lemma EveryRowIsOk(i: nat)
    requires i < CONFIGS
    ensures RowOk(Config(i))
  {
    hide RowOk, Rows0, Rows17, Rows34, Rows51;
    if i < 17 { Rows0Ok(i); } else if i < 34 { Rows17Ok(i - 17); } else if i < 51 { Rows34Ok(i - 34); } else { Rows51Ok(i - 51); }
  }

  /** Every input rate from 6 to 48 MHz has a configuration. */
  lemma EveryInputHasARow(ref: nat)
    requires 6_000_000 <= ref <= 48_000_000
    ensures exists i :: 0 <= i < CONFIGS && Config(i).minInput <= ref <= Config(i).maxInput
  {
    var i := if ref <= 12_000_000 then 2 else if ref <= 24_000_000 then 0 else 1;
    assert Config(i).minInput <= ref <= Config(i).maxInput;
  }
}
