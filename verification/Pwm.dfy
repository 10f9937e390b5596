/**
 The PWM frequency search.  `set_freq` picks a prescaler and a period count for a requested
 frequency, stores the frequency it achieved, and a clock callback later feeds that stored value
 back through the same search.
 */
module Pwm {
  import opened Arith

  const MAX_DUTY: nat := 100
  const MAX_PRESCALE: nat := 15
  const MAX_CHANNELS: nat := 16
  const TWO32: nat := 0x1_0000_0000
  const CFG_SCALE: bv32 := 0x0F

  // ---------------------------------------------------------------- the search

  function Count(clk: nat, p: nat, f: nat): nat
    requires 0 < f
  {
    Div(Div(clk, Pow2(p)), f)
  }

  ghost predicate Fits(clk: nat, p: nat, f: nat, max: nat)
    requires 0 < f
  {
    Count(clk, p, f) <= max
  }

  /** The first prescale from `p` on whose count fits, or 16 when not even 15 is enough. */
  function FirstFit(clk: nat, f: nat, max: nat, p: nat): (r: nat)
    requires 0 < f && p <= MAX_PRESCALE + 1
    ensures p <= r <= MAX_PRESCALE + 1
    ensures forall q :: p <= q < r ==> !Fits(clk, q, f, max)
    ensures r <= MAX_PRESCALE ==> Fits(clk, r, f, max)
    decreases MAX_PRESCALE + 1 - p
  {
    if p == MAX_PRESCALE + 1 || Count(clk, p, f) <= max then p else FirstFit(clk, f, max, p + 1)
  }

  /** The count the loop ends with: that of the chosen prescale, or of 15 when nothing fits. */
  function FinalCount(clk: nat, f: nat, max: nat): nat
    requires 0 < f
  {
    Count(clk, Min(FirstFit(clk, f, max, 0), MAX_PRESCALE), f)
  }

  function Achieved(clk: nat, f: nat, max: nat): nat
    requires 0 < f <= clk && 1 <= max
  {
    DividesByZeroIff(clk, f, max);
    Div(Div(clk, Pow2(FirstFit(clk, f, max, 0))), FinalCount(clk, f, max))
  }

  /** A prescale fits exactly if max + 1 periods of the request are longer than the clock cycles it leaves. */
  lemma FitsMeans(clk: nat, p: nat, f: nat, max: nat)
    requires 0 < f
    ensures Fits(clk, p, f, max) <==> clk < (max + 1) * (Pow2(p) * f)
  {
    hide Div;
    DivDiv(clk, Pow2(p), f);
    FloorIff(clk, Pow2(p) * f, max + 1);
  }

  /** Count and frequency as quotients of the clock rate: with p the prescale found, the count divides by the
      request, at a prescale of 15 at most, and the frequency by the count, at p itself. */
  lemma SearchMeans(clk: nat, f: nat, max: nat)
    requires 0 < f <= clk && 1 <= max
    ensures var p, count, freq := FirstFit(clk, f, max, 0), FinalCount(clk, f, max), Achieved(clk, f, max);
            var q := if p == 16 then 15 else p;
            && count * (Pow2(q) * f) <= clk < (count + 1) * (Pow2(q) * f)
            && freq * (Pow2(p) * count) <= clk < (freq + 1) * (Pow2(p) * count)
  {
    hide Div, FirstFit, Pow2;
    DividesByZeroIff(clk, f, max);
    var p, count, freq := FirstFit(clk, f, max, 0), FinalCount(clk, f, max), Achieved(clk, f, max);
    var q := Min(p, MAX_PRESCALE);
    DivDiv(clk, Pow2(q), f);
    FloorIff(clk, Pow2(q) * f, count);
    FloorIff(clk, Pow2(q) * f, count + 1);
    DivDiv(clk, Pow2(p), count);
    FloorIff(clk, Pow2(p) * count, freq);
    FloorIff(clk, Pow2(p) * count, freq + 1);
  }

  lemma CountHalves(clk: nat, p: nat, f: nat)
    requires 0 < f
    ensures Count(clk, p + 1, f) == Count(clk, p, f) / 2
  {
    var x := Pow2(p);
    DivDiv(clk, x, 2);
    DivDiv(clk / x, 2, f);
    DivDiv(clk / x, f, 2);
  }

  /** The count the driver goes on to divide by is 0 exactly when the request is above the clock rate. */
  lemma DividesByZeroIff(clk: nat, f: nat, max: nat)
    requires 0 < f && 1 <= max
    ensures FinalCount(clk, f, max) == 0 <==> clk < f
  {
    hide Div;
    FloorIff(clk, 1, clk);
    FloorIff(clk, 1, clk + 1);
    FloorIff(clk, f, 1);
    assert Count(clk, 0, f) == Div(clk, f);
    var p := Min(FirstFit(clk, f, max, 0), MAX_PRESCALE);
    if p > 0 {
      assert !Fits(clk, 0, f, max) && !Fits(clk, p - 1, f, max);
      CountHalves(clk, p - 1, f);
    }
  }

  lemma {:induction false} CountDecreases(clk: nat, p: nat, q: nat, f: nat)
    requires 0 < f && p <= q
    ensures Count(clk, q, f) <= Count(clk, p, f)
  {
    if p < q {
      CountDecreases(clk, p, q - 1, f);
      CountHalves(clk, q - 1, f);
    }
  }

  /** The search finds a prescale of at most 15 exactly when 15 itself is enough. */
  lemma FitsIff(clk: nat, f: nat, max: nat)
    requires 0 < f
    ensures FirstFit(clk, f, max, 0) <= MAX_PRESCALE <==> Fits(clk, MAX_PRESCALE, f, max)
  {
    var p := FirstFit(clk, f, max, 0);
    if p <= MAX_PRESCALE { CountDecreases(clk, p, MAX_PRESCALE, f); }
  }

  /** Arithmetic of one division pair: with c = x/f, the frequency x/c is the least one at or above f
      that the count c can express, and its error is less than f/c. */
  lemma RoundTrip(x: nat, f: nat)
    requires 0 < f <= x
    ensures x / f >= 1
    ensures var c := x / f; var f' := x / c;
            f <= f' <= x && (f' - f) * c < f && x / f' == c
  {
    FloorIff(x, f, 1);
    var c := x / f;
    var f' := x / c;
    DivMod(x, f);
    DivMod(x, c);
    FloorIff(x, c, f);
    Distribute(f' - f, f, c);
    MulLe(1, c, f');
    FloorIff(x, f', c);
    FloorIff(x, f', c + 1);
    MulLe(f, f', c + 1);
    Distribute(c, 1, f);
  }

  /** The achieved frequency is never below the request, and within f/count above it, exactly when
      some prescale of at most 15 fits. */
  lemma AccuracyIff(clk: nat, f: nat, max: nat)
    requires 0 < f <= clk && 1 <= max
    ensures f <= Achieved(clk, f, max) <==> Fits(clk, MAX_PRESCALE, f, max)
    ensures Fits(clk, MAX_PRESCALE, f, max) ==> (Achieved(clk, f, max) - f) * FinalCount(clk, f, max) < f
  {
    FitsIff(clk, f, max);
    DividesByZeroIff(clk, f, max);
    var p := FirstFit(clk, f, max, 0);
    if p <= MAX_PRESCALE {
      FloorIff(Div(clk, Pow2(p)), f, 1);
      RoundTrip(Div(clk, Pow2(p)), f);
    } else {
      Underrun(Div(clk, Pow2(15)), f);
      DivDiv(clk, Pow2(15), 2);
    }
  }

  /** When nothing fits, the clock is halved once more than the count allows for. */
  lemma Underrun(x: nat, f: nat)
    requires 0 < f && x / f >= 1
    ensures x / 2 / (x / f) < f
  {
    var c := x / f;
    DivMod(x, f);
    FloorIff(x / 2, c, f);
    Associate(f, c, 1);
    MulLe(1, c, f);
  }

  /** The achieved frequency is 0 exactly for a 1 Hz request that does not fit, which a caller can
      tell from the clock rate. */
  lemma StoresZeroIff(clk: nat, f: nat, max: nat)
    requires 0 < f <= clk && 1 <= max
    ensures Achieved(clk, f, max) == 0 <==> f == 1 && !Fits(clk, MAX_PRESCALE, f, max)
    ensures Fits(clk, MAX_PRESCALE, 1, max) <==> clk < (max + 1) * 0x8000
  {
    hide Div, Pow2;
    Pow2Of15();
    FitsIff(clk, f, max);
    AccuracyIff(clk, f, max);
    DividesByZeroIff(clk, f, max);
    var x := Div(clk, 0x8000);
    FloorIff(clk, 0x8000, max + 1);
    FloorIff(x, 1, max + 1);
    if !Fits(clk, MAX_PRESCALE, f, max) {
      HalfOverCount(x, f);
      DivDiv(clk, 0x8000, 2);
    }
  }

  lemma Pow2Of15()
    ensures Pow2(15) == 0x8000 && Pow2(16) == 0x1_0000
  {
    assert Pow2(5) == 32 && Pow2(10) == 1024;
  }

  lemma HalfOverCount(x: nat, f: nat)
    requires 0 < f && Div(x, f) >= 1
    ensures Div(Div(x, 2), Div(x, f)) == 0 <==> f == 1
  {
    hide Div;
    var c := Div(x, f);
    FloorIff(Div(x, 2), c, 1);
    FloorIff(x, 2, c);
    FloorIff(x, f, c);
    FloorIff(x, 1, x);
    FloorIff(x, 1, x + 1);
    if f >= 2 { MulLe(2, f, c); }
  }

  /** If the chosen prescale yields the same count for another request, it is also chosen for that
      request: with max+1 even, the count that did not fit was at least max+1, so its half is at
      least (max+1)/2, and whatever halves to that is too large again. */
  lemma SamePrescale(clk: nat, f: nat, g: nat, max: nat, p: nat)
    requires 0 < f && 0 < g && max % 2 == 1
    requires p == FirstFit(clk, f, max, 0) <= MAX_PRESCALE
    requires Count(clk, p, g) == Count(clk, p, f)
    ensures FirstFit(clk, g, max, 0) == p
  {
    hide Count;
    assert Fits(clk, p, g, max);
    if p > 0 {
      assert !Fits(clk, p - 1, f, max);
      CountHalves(clk, p - 1, f);
      CountHalves(clk, p - 1, g);
      forall q: nat | q < p ensures !Fits(clk, q, g, max) {
        CountDecreases(clk, q, p - 1, g);
      }
    }
  }

  /** Searching again with the achieved frequency, at the same clock, changes nothing. */
  lemma FixedPoint(clk: nat, f: nat, max: nat)
    requires 0 < f <= clk && max % 2 == 1 && Fits(clk, MAX_PRESCALE, f, max)
    ensures var f' := Achieved(clk, f, max);
            && f <= f' <= clk
            && FirstFit(clk, f', max, 0) == FirstFit(clk, f, max, 0)
            && FinalCount(clk, f', max) == FinalCount(clk, f, max)
            && Achieved(clk, f', max) == f'
            && Fits(clk, MAX_PRESCALE, f', max)
  {
    var p, f' := FirstFit(clk, f, max, 0), Achieved(clk, f, max);
    FitsIff(clk, f, max);
    DividesByZeroIff(clk, f, max);
    FloorIff(Div(clk, Pow2(p)), f, 1);
    RoundTrip(Div(clk, Pow2(p)), f);
    QuotientIsSmaller(clk, Pow2(p));
    assert Count(clk, p, f') == Count(clk, p, f);
    SamePrescale(clk, f, f', max, p);
    FitsIff(clk, f', max);
  }

  lemma QuotientIsSmaller(x: nat, d: nat)
    requires 0 < d
    ensures Div(x, d) <= x
  {
    DivMod(x, d);
    MulLe(1, d, Div(x, d));
  }

  // ---------------------------------------------------------------- the device

  /** Driver fields and registers.  `registrations` counts how often the driver has put its callback
      node on the clock's lists; `cmp` are the PWMCMP registers. */
  datatype Settings = Settings(maxCount: nat, countVal: nat, freq: nat, registrations: nat,
                             duty: seq<nat>, cmp: seq<nat>, cfg: bv32)

  ghost predicate Wired(d: Settings) {
    1 <= |d.cmp| <= |d.duty| == MAX_CHANNELS && 1 <= d.maxCount
  }

  function ScaleBits(p: nat): bv32
    requires p <= MAX_PRESCALE + 1
  {
    (p as bv32) & CFG_SCALE
  }

  /** The callback nodes go on the clock's lists when no frequency is stored. */
  function Registered(d: Settings): (e: Settings)
    requires Wired(d)
    ensures Wired(e)
  {
    if d.freq == 0 then d.(registrations := d.registrations + 1) else d
  }

  function AfterEnable(d: Settings, width: nat): (e: Settings)
    requires Wired(d) && 1 <= width
    ensures Wired(e)
  {
    d.(maxCount := Pow2(width) - 1, freq := 0, countVal := 0, cfg := 0)
  }

  function AfterSetFreq(d: Settings, clk: nat, f: nat): (e: Settings)
    requires Wired(d) && 0 < f <= clk
    ensures Wired(e)
  {
    DividesByZeroIff(clk, f, d.maxCount);
    var count := FinalCount(clk, f, d.maxCount) - 1;
    Registered(d).(
       freq := Achieved(clk, f, d.maxCount),
       countVal := count,
       cmp := d.cmp[0 := count],
       cfg := d.cfg | ScaleBits(FirstFit(clk, f, d.maxCount, 0)))
  }

  /** The compare value for a duty cycle, in 32-bit unsigned arithmetic. */
  function CompareValue(countVal: nat, duty: nat): nat {
    duty * countVal % TWO32 / 100
  }

  /** A compare value is that percentage of the period count, rounded down, unless the product wraps. */
  lemma CompareMeans(countVal: nat, duty: nat)
    ensures var c := CompareValue(countVal, duty); c * 100 <= duty * countVal % TWO32 < (c + 1) * 100
    ensures duty * countVal < TWO32 ==>
              var c := CompareValue(countVal, duty); c * 100 <= duty * countVal < (c + 1) * 100
  {
  }

  /** reg | bits, reg & ~bits, and reg & bits */
  function With(reg: bv32, bits: bv32): bv32 { reg | bits }
  function Without(reg: bv32, bits: bv32): bv32 { reg & !bits }
  function Masked(reg: bv32, bits: bv32): bv32 { reg & bits }

  /** 1 << (16 + idx) */
  function ChannelBit(idx: nat): bv32
    requires idx < MAX_CHANNELS
  {
    1 << (16 + idx)
  }

  /** The channels have the upper sixteen bits of the register, in order. */
  lemma ChannelBits()
    ensures ChannelBit(0) == 0x0001_0000 && ChannelBit(1) == 0x0002_0000 && ChannelBit(2) == 0x0004_0000
    ensures ChannelBit(3) == 0x0008_0000 && ChannelBit(4) == 0x0010_0000 && ChannelBit(5) == 0x0020_0000
    ensures ChannelBit(6) == 0x0040_0000 && ChannelBit(7) == 0x0080_0000 && ChannelBit(8) == 0x0100_0000
    ensures ChannelBit(9) == 0x0200_0000 && ChannelBit(10) == 0x0400_0000 && ChannelBit(11) == 0x0800_0000
    ensures ChannelBit(12) == 0x1000_0000 && ChannelBit(13) == 0x2000_0000 && ChannelBit(14) == 0x4000_0000
    ensures ChannelBit(15) == 0x8000_0000
  {
  }

  lemma ChannelBitIsOne(idx: nat)
    requires idx < MAX_CHANNELS
    ensures ChannelBit(idx) != 0
  {
    hide ChannelBit;
    ChannelBits();
    if idx == 0 {} else if idx == 1 {} else if idx == 2 {} else if idx == 3 {} else if idx == 4 {} else if idx == 5 {}
    else if idx == 6 {} else if idx == 7 {} else if idx == 8 {} else if idx == 9 {} else if idx == 10 {}
    else if idx == 11 {} else if idx == 12 {} else if idx == 13 {} else if idx == 14 {} else { assert idx == 15; }
  }

  /** PWMCFG with the phase-correct bit of one channel set or cleared. */
  function WithPhase(cfg: bv32, idx: nat, phaseCorrect: bool): bv32
    requires idx < MAX_CHANNELS
  {
    if phaseCorrect then With(cfg, ChannelBit(idx)) else Without(cfg, ChannelBit(idx))
  }

  /** The channel's bit says whether it is phase correct, and no other bit changes. */
  lemma PhaseMeans(cfg: bv32, idx: nat, phaseCorrect: bool)
    requires idx < MAX_CHANNELS
    ensures var c := WithPhase(cfg, idx, phaseCorrect);
            && (Masked(c, ChannelBit(idx)) != 0 <==> phaseCorrect)
            && Without(c, ChannelBit(idx)) == Without(cfg, ChannelBit(idx))
  {
    hide ChannelBit, With, Without, Masked;
    ChannelBitIsOne(idx);
    OneBit(cfg, ChannelBit(idx));
  }

  lemma OneBit(a: bv32, m: bv32)
    ensures Masked(With(a, m), m) == m && Masked(Without(a, m), m) == 0
    ensures Without(With(a, m), m) == Without(Without(a, m), m) == Without(a, m)
  {
    assert (a | m) & !m == a & !m by { ClearingSetBits(a, m); }
  }

  lemma ClearingSetBits(a: bv32, m: bv32)
    ensures (a | m) & !m == a & !m
  {
  }

  function AfterSetDuty(d: Settings, idx: nat, duty: nat, phaseCorrect: bool): (e: Settings)
    requires Wired(d) && 0 < idx < |d.cmp|
    ensures Wired(e)
  {
    d.(cmp := d.cmp[idx := CompareValue(d.countVal, duty)],
       duty := d.duty[idx := duty],
       cfg := WithPhase(d.cfg, idx, phaseCorrect))
  }

  function Refreshed(d: Settings): (e: Settings)
    requires Wired(d)
    ensures Wired(e)
  {
    d.(cmp := seq(|d.cmp|, k requires 0 <= k < |d.cmp| =>
                    if k > 0 && d.duty[k] != 0 then CompareValue(d.countVal, d.duty[k]) else d.cmp[k]))
  }

  function AfterRateChange(d: Settings, clk: nat): (e: Settings)
    requires Wired(d) && d.freq <= clk
    ensures Wired(e)
  {
    if d.freq == 0 then d else Refreshed(AfterSetFreq(d, clk, d.freq))
  }

  /** How a call ends: with a return code, or in a division by 0, which C leaves undefined. */
  datatype Outcome = Returned(rc: int) | DividedByZero

  class Pwm {
    var maxCount: nat
    var countVal: nat
    var freq: nat
    var duty: array<nat>
    var cmp: array<nat>
    var cfg: bv32
    var registrations: nat

    ghost predicate Valid()
      reads this, duty, cmp
    {
      duty != cmp && Wired(Value())
    }

    ghost function Value(): Settings
      reads this, duty, cmp
    {
      Settings(maxCount, countVal, freq, registrations, duty[..], cmp[..], cfg)
    }

    method Enable(width: nat)
      requires Valid() && 1 <= width < 32
      modifies this
      ensures duty == old(duty) && cmp == old(cmp) && Valid()
      ensures Value() == AfterEnable(old(Value()), width)
      ensures maxCount == Pow2(width) - 1 && freq == 0 && countVal == 0 && cfg == 0
      ensures registrations == old(registrations)
    {
      maxCount := Pow2(width) - 1;
      freq := 0;
      countVal := 0;
      cfg := 0;
    }

    /** The do-while search.  C increments the prescale even when its last comparison fails, which is
        how 16 comes out. */
    static method Search(clk: nat, f: nat, max: nat) returns (prescale: nat, count: nat)
      requires 0 < f && 1 <= max
      ensures prescale <= MAX_PRESCALE <==> Fits(clk, MAX_PRESCALE, f, max)
      ensures prescale <= MAX_PRESCALE ==> Fits(clk, prescale, f, max)
      ensures forall q :: 0 <= q < prescale && q <= MAX_PRESCALE ==> !Fits(clk, q, f, max)
      ensures prescale == FirstFit(clk, f, max, 0) && count == FinalCount(clk, f, max)
      ensures count == 0 <==> clk < f
    {
      FitsIff(clk, f, max);
      DividesByZeroIff(clk, f, max);
      prescale := 0;
      while true
        invariant prescale <= MAX_PRESCALE
        invariant FirstFit(clk, f, max, prescale) == FirstFit(clk, f, max, 0)
        decreases MAX_PRESCALE - prescale
      {
        count := Count(clk, prescale, f);
        if count <= max { break; }
        prescale := prescale + 1;
        if prescale - 1 >= MAX_PRESCALE { break; }
      }
    }

    method SetFreq(clk: nat, idx: nat, f: nat) returns (o: Outcome)
      requires Valid() && clk < TWO32
      modifies this, cmp
      ensures duty == old(duty) && cmp == old(cmp) && Valid()
      ensures o == if idx >= cmp.Length then Returned(-1) else if 0 < f <= clk then Returned(0) else DividedByZero
      ensures o == Returned(-1) ==> Value() == old(Value())
      ensures o == Returned(0) ==> Value() == AfterSetFreq(old(Value()), clk, f)
      ensures o.DividedByZero? ==> Value() == Registered(old(Value()))
      ensures registrations == old(registrations) + if idx < cmp.Length && old(freq) == 0 then 1 else 0
      ensures maxCount == old(maxCount) && duty[..] == old(duty[..])
      ensures o == Returned(0) ==> cmp[0] == countVal && forall k :: 1 <= k < cmp.Length ==> cmp[k] == old(cmp[k])
    {
      hide Div, FirstFit, FinalCount, Count, Pow2, ScaleBits;
      if idx >= cmp.Length { return Returned(-1); }
      ghost var v := Value();
      if freq == 0 { registrations := registrations + 1; }
      if f == 0 { return DividedByZero; }
      var prescale, count := Search(clk, f, maxCount);
      if count == 0 { return DividedByZero; }
      freq := Div(Div(clk, Pow2(prescale)), count);
      count := count - 1;
      countVal := count;
      cmp[0] := count;
      cfg := cfg | ScaleBits(prescale);
      o := Returned(0);
      assert cmp[..] == v.cmp[0 := count];
    }

    method SetDuty(idx: nat, d: nat, phaseCorrect: bool) returns (rc: int)
      requires Valid()
      modifies this, cmp, duty
      ensures duty == old(duty) && cmp == old(cmp) && Valid()
      ensures rc == if 0 < idx < cmp.Length && d <= MAX_DUTY then 0 else -1
      ensures Value() == if rc == 0 then AfterSetDuty(old(Value()), idx, d, phaseCorrect) else old(Value())
      ensures rc == 0 ==>
                && duty[idx] == d && (d * countVal < TWO32 ==> cmp[idx] * 100 <= d * countVal < (cmp[idx] + 1) * 100)
                && (Masked(cfg, ChannelBit(idx)) != 0 <==> phaseCorrect)
                && Without(cfg, ChannelBit(idx)) == Without(old(cfg), ChannelBit(idx))
      ensures freq == old(freq) && countVal == old(countVal) && maxCount == old(maxCount)
      ensures rc == 0 ==> (forall k :: 0 <= k < cmp.Length && k != idx ==> cmp[k] == old(cmp[k]))
                          && (forall k :: 0 <= k < duty.Length && k != idx ==> duty[k] == old(duty[k]))
    {
      hide CompareValue, WithPhase, ChannelBit, With, Without, Masked;
      rc := -1;
      if 0 < idx < cmp.Length && d <= MAX_DUTY {
        ghost var v := Value();
        CompareMeans(countVal, d);
        PhaseMeans(cfg, idx, phaseCorrect);
        cmp[idx] := CompareValue(countVal, d);
        duty[idx] := d;
        cfg := WithPhase(cfg, idx, phaseCorrect);
        rc := 0;
        assert cmp[..] == v.cmp[idx := CompareValue(v.countVal, d)];
        assert duty[..] == v.duty[idx := d];
      }
    }

    method PostRateChange(clk: nat) returns (o: Outcome)
      requires Valid() && clk < TWO32
      modifies this, cmp
      ensures duty == old(duty) && cmp == old(cmp) && Valid()
      ensures o == if old(freq) <= clk then Returned(0) else DividedByZero
      ensures Value() == if o.DividedByZero? then old(Value()) else AfterRateChange(old(Value()), clk)
      ensures old(freq) == 0 ==> Value() == old(Value())
      ensures duty[..] == old(duty[..])
      ensures 0 < old(freq) <= clk ==> cmp[0] == countVal && forall k :: 1 <= k < cmp.Length ==>
                if duty[k] == 0 then cmp[k] == old(cmp[k])
                else duty[k] * countVal < TWO32 ==> cmp[k] * 100 <= duty[k] * countVal < (cmp[k] + 1) * 100
    {
      hide CompareValue, Achieved, FinalCount, FirstFit, ScaleBits;
      o := Returned(0);
      if freq != 0 {
        o := SetFreq(clk, 0, freq);
        if o.DividedByZero? { return; }
        ghost var v := Value();
        var idx := 0;
        while idx + 1 < cmp.Length
          invariant 0 <= idx < cmp.Length && duty == old(duty) && cmp == old(cmp)
          invariant Value() == v.(cmp := cmp[..])
          invariant forall k :: 0 <= k < cmp.Length ==>
                      cmp[k] == if 0 < k <= idx && duty[k] != 0 then CompareValue(v.countVal, duty[k]) else v.cmp[k]
        {
          idx := idx + 1;
          var d := duty[idx];
          if d != 0 { cmp[idx] := CompareValue(countVal, d); }
        }
        assert cmp[..] == Refreshed(v).cmp;
        forall k: nat ensures var c := CompareValue(countVal, k);
                              k * countVal < TWO32 ==> c * 100 <= k * countVal < (c + 1) * 100
        {
          CompareMeans(countVal, k);
        }
      }
    }
  }

  // ---------------------------------------------------------------- what a rate change keeps

  /** Fields and registers all agree with the stored frequency at this clock. */
  ghost predicate Settled(d: Settings, clk: nat) {
    && Wired(d)
    && 0 < d.freq <= clk
    && Achieved(clk, d.freq, d.maxCount) == d.freq
    && d.countVal == d.cmp[0] == FinalCount(clk, d.freq, d.maxCount) - 1
    && d.cfg | ScaleBits(FirstFit(clk, d.freq, d.maxCount, 0)) == d.cfg
  }

  lemma SetFreqSettles(d: Settings, clk: nat, f: nat)
    requires Wired(d) && 0 < f <= clk && d.maxCount % 2 == 1
    requires Fits(clk, MAX_PRESCALE, f, d.maxCount)
    ensures f <= AfterSetFreq(d, clk, f).freq && Settled(AfterSetFreq(d, clk, f), clk)
  {
    hide Div, Count, FinalCount, FirstFit, Fits, Achieved, ScaleBits, Pow2;
    DividesByZeroIff(clk, f, d.maxCount);
    FixedPoint(clk, f, d.maxCount);
    var e := AfterSetFreq(d, clk, f);
    assert e.freq == Achieved(clk, f, d.maxCount) && e.maxCount == d.maxCount;
    OrAgain(d.cfg, ScaleBits(FirstFit(clk, f, d.maxCount, 0)));
  }

  lemma OrAgain(a: bv32, b: bv32)
    ensures (a | b) | b == a | b
  {
  }

  /** A set_freq followed by rate-change callbacks at the same clock: the first callback only brings
      the duty compare registers up to date, further ones change nothing at all. */
  lemma RateChangeIsIdempotent(d: Settings, clk: nat, f: nat)
    requires Wired(d) && 0 < f <= clk && d.maxCount % 2 == 1
    requires Fits(clk, MAX_PRESCALE, f, d.maxCount)
    ensures var e := AfterSetFreq(d, clk, f);
            && f <= e.freq <= clk
            && AfterRateChange(e, clk) == Refreshed(e)
            && AfterRateChange(Refreshed(e), clk) == Refreshed(e)
  {
    hide Div, Count, FinalCount, Achieved, ScaleBits, FirstFit, CompareValue;
    SetFreqSettles(d, clk, f);
    var e := AfterSetFreq(d, clk, f);
    assert AfterSetFreq(e, clk, e.freq) == e;
    assert AfterSetFreq(Refreshed(e), clk, e.freq) == Refreshed(e);
    RefreshAgain(e);
  }

  lemma RefreshAgain(d: Settings)
    requires Wired(d)
    ensures Refreshed(Refreshed(d)) == Refreshed(d)
  {
    hide CompareValue;
    assert Refreshed(Refreshed(d)).cmp == Refreshed(d).cmp;
  }

  /** The scale field ends up holding the chosen prescale exactly when a prescale fits and the field
      held no other bit before: the driver ORs the new scale in without clearing the old one. */
  lemma ScaleFieldIff(d: Settings, clk: nat, f: nat)
    requires Wired(d) && 0 < f <= clk
    ensures var p := FirstFit(clk, f, d.maxCount, 0);
            (AfterSetFreq(d, clk, f).cfg & CFG_SCALE) as nat == p
            <==> Fits(clk, MAX_PRESCALE, f, d.maxCount) && (d.cfg & CFG_SCALE) & !ScaleBits(p) == 0
    ensures AfterSetFreq(d, clk, f).cfg & !CFG_SCALE == d.cfg & !CFG_SCALE
  {
    OtherBits(d.cfg, FirstFit(clk, f, d.maxCount, 0) as bv32);
    FitsIff(clk, f, d.maxCount);
    ScaleUnion(d.cfg, FirstFit(clk, f, d.maxCount, 0));
  }

  lemma ScaleUnion(a: bv32, p: nat)
    requires p <= MAX_PRESCALE + 1
    ensures ((a | ScaleBits(p)) & CFG_SCALE) as nat == p
            <==> p <= MAX_PRESCALE && (a & CFG_SCALE) & !ScaleBits(p) == 0
  {
    var b := ScaleBits(p);
    MaskUnion(a, b);
    MaskBounded(a | b);
    if p <= MAX_PRESCALE { assert b as nat == p; }
  }

  lemma OtherBits(a: bv32, b: bv32)
    ensures (a | (b & CFG_SCALE)) & !CFG_SCALE == a & !CFG_SCALE
  {
  }

  lemma MaskUnion(a: bv32, b: bv32)
    requires b & CFG_SCALE == b
    ensures (a | b) & CFG_SCALE == b <==> (a & CFG_SCALE) & !b == 0
  {
  }

  lemma MaskBounded(a: bv32)
    ensures (a & CFG_SCALE) as nat <= MAX_PRESCALE
  {
  }

  // ---------------------------------------------------------------- callback registration

  datatype Call = EnableCall(width: nat) | SetFreqCall(clk: nat, idx: nat, f: nat)
                | SetDutyCall(idx: nat, duty: nat, phaseCorrect: bool) | RateChangeCall(clk: nat)

  /** The call divides by no zero. */
  predicate Defined(d: Settings, call: Call) {
    match call
    case EnableCall(width) => 1 <= width < 32
    case SetFreqCall(clk, idx, f) => idx < |d.cmp| ==> 0 < f <= clk
    case SetDutyCall(_, _, _) => true
    case RateChangeCall(clk) => d.freq <= clk
  }

  /** A call that is not defined has no result; no theorem is about a run with one.  Whether the clock
      gets as far as the rate-change callback is up to its lists, see Callbacks. */
  function AfterCall(d: Settings, call: Call): (e: Settings)
    requires Wired(d)
    ensures Wired(e)
  {
    if !Defined(d, call) then d
    else match call
      case EnableCall(width) => AfterEnable(d, width)
      case SetFreqCall(clk, idx, f) => if idx < |d.cmp| then AfterSetFreq(d, clk, f) else d
      case SetDutyCall(idx, duty, phaseCorrect) =>
        if 0 < idx < |d.cmp| && duty <= MAX_DUTY then AfterSetDuty(d, idx, duty, phaseCorrect) else d
      case RateChangeCall(clk) => AfterRateChange(d, clk)
  }

  /** The device after the first k calls. */
  function After(d: Settings, calls: seq<Call>, k: nat): (e: Settings)
    requires Wired(d) && k <= |calls|
    ensures Wired(e)
  {
    if k == 0 then d else AfterCall(After(d, calls, k - 1), calls[k - 1])
  }

  lemma CallsInTurn(d: Settings, calls: seq<Call>, k: nat)
    requires Wired(d) && k < |calls|
    ensures After(d, calls, k + 1) == AfterCall(After(d, calls, k), calls[k])
  {
  }

  ghost predicate AllDefined(d: Settings, calls: seq<Call>)
    requires Wired(d)
  {
    forall k :: 0 <= k < |calls| ==> Defined(After(d, calls, k), calls[k])
  }

  /** A set_freq that is not refused. */
  predicate Accepted(d: Settings, call: Call) { call.SetFreqCall? && call.idx < |d.cmp| }

  predicate Sets(d: Settings, calls: seq<Call>, k: nat)
    requires k < |calls|
  {
    Accepted(d, calls[k])
  }

  /** The call leaves no frequency stored: it enables the device, or asks for 1 Hz, directly or as the
      stored frequency of a rate change, at a clock at which 1 Hz does not fit. */
  ghost predicate Forgets(d: Settings, call: Call) {
    match call
    case EnableCall(_) => true
    case SetFreqCall(clk, _, f) => Accepted(d, call) && f == 1 && !Fits(clk, MAX_PRESCALE, 1, d.maxCount)
    case SetDutyCall(_, _, _) => false
    case RateChangeCall(clk) => d.freq == 1 && !Fits(clk, MAX_PRESCALE, 1, d.maxCount)
  }

  ghost predicate ForgetsAt(d: Settings, calls: seq<Call>, k: nat)
    requires Wired(d) && k < |calls|
  {
    Forgets(After(d, calls, k), calls[k])
  }

  /** What one call does to the stored frequency and to the number of registrations. */
  lemma CallEffect(d: Settings, call: Call)
    requires Wired(d) && Defined(d, call)
    ensures |AfterCall(d, call).cmp| == |d.cmp|
    ensures AfterCall(d, call).registrations == d.registrations + (if Accepted(d, call) && d.freq == 0 then 1 else 0)
    ensures AfterCall(d, call).freq == 0 <==> Forgets(d, call) || (d.freq == 0 && !Accepted(d, call))
  {
    hide Achieved, Fits, FinalCount, FirstFit, ScaleBits, CompareValue, WithPhase, Pow2;
    if Accepted(d, call) { StoresZeroIff(call.clk, call.f, d.maxCount); }
    if call.RateChangeCall? && d.freq != 0 { StoresZeroIff(call.clk, d.freq, d.maxCount); }
  }

  /** The same of call k of a run. */
  lemma {:induction false} CallEffectAt(d: Settings, calls: seq<Call>, k: nat)
    requires Wired(d) && AllDefined(d, calls) && k < |calls|
    ensures var t, u := After(d, calls, k), After(d, calls, k + 1);
            && |t.cmp| == |u.cmp| == |d.cmp|
            && u.registrations == t.registrations + (if Sets(d, calls, k) && t.freq == 0 then 1 else 0)
            && (u.freq == 0 <==> ForgetsAt(d, calls, k) || (t.freq == 0 && !Sets(d, calls, k)))
  {
    hide AfterCall, Defined, Forgets, Wired;
    if k > 0 { CallEffectAt(d, calls, k - 1); }
    CallEffect(After(d, calls, k), calls[k]);
    CallsInTurn(d, calls, k);
  }

  /** The registering calls: every set_freq that finds no frequency stored. */
  ghost function Registering(d: Settings, calls: seq<Call>, k: nat): set<nat>
    requires Wired(d) && k <= |calls|
  {
    set j: nat | j < k && Sets(d, calls, j) && After(d, calls, j).freq == 0
  }

  lemma NoneRegistering(d: Settings, calls: seq<Call>)
    requires Wired(d)
    ensures Registering(d, calls, 0) == {}
  {
  }

  lemma RegisteringStep(d: Settings, calls: seq<Call>, k: nat)
    requires Wired(d) && k < |calls|
    ensures |Registering(d, calls, k + 1)|
            == |Registering(d, calls, k)| + if Sets(d, calls, k) && After(d, calls, k).freq == 0 then 1 else 0
  {
    hide After, Sets, Wired;
    var more: set<nat> := if Sets(d, calls, k) && After(d, calls, k).freq == 0 then {k} else {};
    assert Registering(d, calls, k + 1) == Registering(d, calls, k) + more;
  }

  /** In any run the nodes are put on the lists as often as a set_freq finds no frequency stored. */
  lemma {:induction false} RegistrationCount(d: Settings, calls: seq<Call>, k: nat)
    requires Wired(d) && AllDefined(d, calls) && k <= |calls|
    ensures After(d, calls, k).registrations == d.registrations + |Registering(d, calls, k)|
  {
    hide AfterCall, Sets, Registering, Defined, Wired;
    if k == 0 {
      NoneRegistering(d, calls);
    } else {
      RegistrationCount(d, calls, k - 1);
      CallEffectAt(d, calls, k - 1);
      RegisteringStep(d, calls, k - 1);
    }
  }

  ghost predicate SetBefore(d: Settings, calls: seq<Call>, k: nat)
    requires k <= |calls|
  {
    exists i :: 0 <= i < k && Sets(d, calls, i)
  }

  /** Call m forgot the frequency and no set_freq has stored one since. */
  ghost predicate ForgottenSince(d: Settings, calls: seq<Call>, m: nat, k: nat)
    requires Wired(d) && k <= |calls|
  {
    m < k && ForgetsAt(d, calls, m) && forall j :: m < j < k ==> !Sets(d, calls, j)
  }

  ghost predicate Forgotten(d: Settings, calls: seq<Call>, k: nat)
    requires Wired(d) && k <= |calls|
  {
    exists m: nat :: ForgottenSince(d, calls, m, k)
  }

  lemma ForgottenStep(d: Settings, calls: seq<Call>, k: nat)
    requires Wired(d) && k < |calls|
    ensures Forgotten(d, calls, k + 1) <==> ForgetsAt(d, calls, k) || (Forgotten(d, calls, k) && !Sets(d, calls, k))
  {
    hide ForgetsAt, Sets, Wired;
    if Forgotten(d, calls, k) && !Sets(d, calls, k) {
      var m: nat :| ForgottenSince(d, calls, m, k);
      assert ForgottenSince(d, calls, m, k + 1);
    }
    if ForgetsAt(d, calls, k) { assert ForgottenSince(d, calls, k, k + 1); }
    if Forgotten(d, calls, k + 1) {
      var m: nat :| ForgottenSince(d, calls, m, k + 1);
      assert m == k || ForgottenSince(d, calls, m, k);
    }
  }

  /** No frequency is stored exactly as long as none was set, and again after a call that forgets it,
      up to the next set_freq. */
  lemma {:induction false} StoredIff(d: Settings, calls: seq<Call>, k: nat)
    requires Wired(d) && d.freq == 0 && AllDefined(d, calls) && k <= |calls|
    ensures After(d, calls, k).freq == 0
            <==> !SetBefore(d, calls, k) || Forgotten(d, calls, k)
  {
    hide AfterCall, Sets, Defined, ForgetsAt, Forgotten, Wired;
    if k > 0 {
      StoredIff(d, calls, k - 1);
      CallEffectAt(d, calls, k - 1);
      ForgottenStep(d, calls, k - 1);
    }
  }

  /** A set_freq, then (or at once) a call that forgets the frequency, then another set_freq. */
  ghost predicate SetAgain(d: Settings, calls: seq<Call>, i: nat, m: nat, j: nat)
    requires Wired(d)
  {
    i <= m < j < |calls| && Sets(d, calls, i) && ForgetsAt(d, calls, m) && Sets(d, calls, j)
  }

  ghost predicate SetAgainBefore(d: Settings, calls: seq<Call>, k: nat)
    requires Wired(d)
  {
    exists i: nat, m: nat, j: nat :: j < k && SetAgain(d, calls, i, m, j)
  }

  lemma {:induction false} RegisteredUpTo(d: Settings, calls: seq<Call>, k: nat)
    requires Wired(d) && d.freq == 0 && AllDefined(d, calls) && k <= |calls|
    ensures After(d, calls, k).registrations == d.registrations <==> !SetBefore(d, calls, k)
    ensures After(d, calls, k).registrations <= d.registrations + 1 <==> !SetAgainBefore(d, calls, k)
    ensures After(d, calls, k).registrations >= d.registrations
  {
    hide AfterCall, Sets, Defined, ForgetsAt, Forgotten, SetAgain, Wired;
    if k > 0 {
      var j := k - 1;
      RegisteredUpTo(d, calls, j);
      StoredIff(d, calls, j);
      CallEffectAt(d, calls, j);
      SetAgainStep(d, calls, j);
    }
  }

  lemma SetAgainStep(d: Settings, calls: seq<Call>, j: nat)
    requires Wired(d) && j < |calls|
    ensures SetAgainBefore(d, calls, j + 1)
            <==> SetAgainBefore(d, calls, j) || (Sets(d, calls, j) && SetBefore(d, calls, j) && Forgotten(d, calls, j))
  {
    hide ForgetsAt, Sets, Wired;
    if SetAgainBefore(d, calls, j + 1) {
      var i: nat, m: nat, j': nat :| j' < j + 1 && SetAgain(d, calls, i, m, j');
      if j' == j {
        if n: nat :| m < n < j && Sets(d, calls, n) { assert SetAgain(d, calls, i, m, n); }
        else { assert ForgottenSince(d, calls, m, j); }
      }
    }
    if Sets(d, calls, j) && SetBefore(d, calls, j) && Forgotten(d, calls, j) {
      var i :| 0 <= i < j && Sets(d, calls, i);
      var m: nat :| ForgottenSince(d, calls, m, j);
      assert SetAgain(d, calls, i, m, j);
    }
  }

  /** In a run from a device with no frequency stored, the callback nodes go on the clock's lists more
      than once exactly if a set_freq follows a call that forgot the frequency an earlier one set. */
  lemma RegisteredOnceIff(d: Settings, calls: seq<Call>)
    requires Wired(d) && d.freq == 0 && AllDefined(d, calls)
    ensures After(d, calls, |calls|).registrations <= d.registrations + 1
            <==> !exists i: nat, m: nat, j: nat :: SetAgain(d, calls, i, m, j)
  {
    RegisteredUpTo(d, calls, |calls|);
  }

  /** Enabling forgets the frequency but not the registration: with any request and any clock rate, the
      second set_freq of enable, set_freq, enable, set_freq registers the same nodes again. */
  lemma ReenablingRegistersAgain(d: Settings, width: nat, clk: nat, f: nat)
    requires Wired(d) && 1 <= width < 32 && 0 < f <= clk
    ensures var calls := [EnableCall(width), SetFreqCall(clk, 0, f), EnableCall(width), SetFreqCall(clk, 0, f)];
            AllDefined(d, calls) && After(d, calls, 4).registrations == d.registrations + 2
  {
    hide Pow2, Achieved, FinalCount, FirstFit, ScaleBits;
    var calls := [EnableCall(width), SetFreqCall(clk, 0, f), EnableCall(width), SetFreqCall(clk, 0, f)];
    forall k | 0 <= k < 4 ensures After(d, calls, k + 1) == AfterCall(After(d, calls, k), calls[k]) {
      CallsInTurn(d, calls, k);
    }
    assert After(d, calls, 0) == d;
    assert After(d, calls, 0 + 1) == AfterEnable(d, width);
    assert After(d, calls, 1 + 1).registrations == d.registrations + 1;
    assert After(d, calls, 2 + 1).registrations == d.registrations + 1 && After(d, calls, 2 + 1).freq == 0;
    assert After(d, calls, 3 + 1).registrations == d.registrations + 2;
  }

  /** So do two requests for 1 Hz at a clock of at least 2^15 times the period counter's range. */
  lemma OneHertzRegistersAgain(d: Settings, clk: nat)
    requires Wired(d) && d.freq == 0 && (d.maxCount + 1) * 0x8000 <= clk
    ensures var calls := [SetFreqCall(clk, 0, 1), SetFreqCall(clk, 0, 1)];
            && AllDefined(d, calls) && After(d, calls, 1).freq == 0
            && After(d, calls, 2).registrations == d.registrations + 2
  {
    hide Pow2, Achieved, FinalCount, FirstFit, ScaleBits, Fits;
    var calls := [SetFreqCall(clk, 0, 1), SetFreqCall(clk, 0, 1)];
    StoresZeroIff(clk, 1, d.maxCount);
    CallsInTurn(d, calls, 0);
    CallsInTurn(d, calls, 1);
    assert After(d, calls, 0) == d;
    assert After(d, calls, 0 + 1) == AfterSetFreq(d, clk, 1);
    assert After(d, calls, 1 + 1) == AfterSetFreq(After(d, calls, 1), clk, 1);
  }

  // ---------------------------------------------------------------- errors over many rate changes

  /** The callback asks for what was achieved, not for what was requested: the stored frequency goes down
      with a rate change exactly if it no longer fits. */
  lemma RateChangeRaisesIff(d: Settings, clk: nat)
    requires Wired(d) && 0 < d.freq <= clk
    ensures d.freq <= AfterRateChange(d, clk).freq <==> Fits(clk, MAX_PRESCALE, d.freq, d.maxCount)
  {
    hide Achieved, Fits, FinalCount, FirstFit, ScaleBits, CompareValue;
    AccuracyIff(clk, d.freq, d.maxCount);
  }

  /** Every call is a rate change at which the stored frequency still fits. */
  ghost predicate FittingRateChanges(d: Settings, calls: seq<Call>)
    requires Wired(d)
  {
    AllDefined(d, calls) &&
    forall k :: 0 <= k < |calls| ==>
      calls[k].RateChangeCall? && var e := After(d, calls, k);
      0 < e.freq ==> Fits(calls[k].clk, MAX_PRESCALE, e.freq, e.maxCount)
  }

  /** After a set_freq and any number of fitting rate changes the stored frequency has never been below the
      request and has never gone down: what each change adds to it stays. */
  lemma {:induction false} ErrorsOnlyGrow(d: Settings, clk: nat, f: nat, calls: seq<Call>, j: nat, k: nat)
    requires Wired(d) && 0 < f <= clk && Fits(clk, MAX_PRESCALE, f, d.maxCount)
    requires FittingRateChanges(AfterSetFreq(d, clk, f), calls) && j <= k <= |calls|
    ensures var e := AfterSetFreq(d, clk, f); f <= After(e, calls, j).freq <= After(e, calls, k).freq
    decreases k
  {
    hide AfterSetFreq, AfterRateChange, Fits, Wired;
    var e := AfterSetFreq(d, clk, f);
    if k == 0 {
      SetFreqReaches(d, clk, f);
    } else {
      ErrorsOnlyGrow(d, clk, f, calls, if j < k then j else k - 1, k - 1);
      CallsInTurn(e, calls, k - 1);
      assert Defined(After(e, calls, k - 1), calls[k - 1]);
      RateChangeRaisesIff(After(e, calls, k - 1), calls[k - 1].clk);
    }
  }

  lemma SetFreqReaches(d: Settings, clk: nat, f: nat)
    requires Wired(d) && 0 < f <= clk && Fits(clk, MAX_PRESCALE, f, d.maxCount)
    ensures f <= AfterSetFreq(d, clk, f).freq
  {
    hide Achieved, Fits, FinalCount, FirstFit, ScaleBits;
    AccuracyIff(clk, f, d.maxCount);
  }

  /** A clock that goes from 100 to 64 Hz and back takes a request for 30 Hz from 33 to 100. */
  lemma ThereAndBack(d: Settings)
    requires Wired(d) && d.maxCount == 3
    ensures var e := AfterSetFreq(d, 100, 30);
            var calls := [RateChangeCall(64), RateChangeCall(100)];
            && e.freq == 33 && AllDefined(e, calls)
            && After(e, calls, 1).freq == 64 && After(e, calls, 2).freq == 100
  {
    hide ScaleBits, Achieved, FinalCount, FirstFit, AfterRateChange, Wired;
    var e := AfterSetFreq(d, 100, 30);
    var calls := [RateChangeCall(64), RateChangeCall(100)];
    FitsAtOnce(100, 30, 3);
    FitsAtOnce(64, 33, 3);
    FitsAtOnce(100, 64, 3);
    CallsInTurn(e, calls, 0);
    CallsInTurn(e, calls, 1);
    RateChangeFreq(e, 64);
    RateChangeFreq(AfterRateChange(e, 64), 100);
    assert After(e, calls, 0 + 1) == AfterRateChange(e, 64);
    assert After(e, calls, 1 + 1) == AfterRateChange(AfterRateChange(e, 64), 100);
  }

  lemma RateChangeFreq(d: Settings, clk: nat)
    requires Wired(d) && 0 < d.freq <= clk
    ensures AfterRateChange(d, clk).freq == Achieved(clk, d.freq, d.maxCount)
    ensures AfterRateChange(d, clk).maxCount == d.maxCount
  {
    hide Achieved, FinalCount, FirstFit, ScaleBits, CompareValue;
  }

  lemma FitsAtOnce(clk: nat, f: nat, max: nat)
    requires 0 < f <= clk && 1 <= max && clk / f <= max
    ensures clk / f >= 1 && Achieved(clk, f, max) == clk / (clk / f)
  {
    FloorIff(clk, f, 1);
    assert Count(clk, 0, f) == clk / f;
  }
}
