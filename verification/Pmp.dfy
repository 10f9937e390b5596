/**
 Physical memory protection: the entries of one hart as the hardware keeps them, what the driver's
 calls do to them, and what that means for locked regions, for granularity and for read-back.
 The hardware rules are those of section 3.7 of the RISC-V Privileged Architecture, version 20211203.
 */
module Pmp {
  import opened Arith

  const MAX_REGIONS: nat := 16
  const XLEN: nat := 32
  const ADDRESSES: nat := 0x1_0000_0000

  datatype Mode = OFF | TOR | NA4 | NAPOT

  datatype PmpConfig = PmpConfig(R: bool, W: bool, X: bool, A: Mode, L: bool)

  const CLEARED := PmpConfig(false, false, false, OFF, false)

  /** `addr` is the value the register stores, whatever of it a read shows. */
  datatype Entry = Entry(cfg: PmpConfig, addr: nat)

  const ZERO := Entry(CLEARED, 0)

  /** One hart's entries and what the driver has recorded of its granularity.  The grain G makes 2^(G+2)
      bytes the smallest region; `na4` is what the hardware makes of NA4 when it cannot do it. */
  datatype State = State(regions: nat, grain: nat, na4: Mode, entries: seq<Entry>, granularity: nat)

  // ---------------------------------------------------------------- the hardware

  /** The address bits below this value are not stored. */
  function Unit(grain: nat): (u: nat)
    ensures u >= 1
  {
    if grain == 0 then 1 else Pow2(grain - 1)
  }

  function Down(a: nat, d: nat): nat
    requires 0 < d
  {
    Div(a, d) * d
  }

  /** What a read shows of a stored address: the unstored bits as ones in NAPOT mode, and the bits
      below the grain as zeros when the entry is off or top-of-range. */
  function View(grain: nat, mode: Mode, stored: nat): nat {
    if mode == NAPOT || mode == NA4 then stored + Unit(grain) - 1 else Down(stored, Pow2(grain))
  }

  ghost predicate Ok(s: State) {
    && s.regions <= MAX_REGIONS == |s.entries| && s.grain <= 29 && s.na4 != NA4
    && forall i :: 0 <= i < MAX_REGIONS ==> EntryOk(s, i)
  }

  ghost predicate EntryOk(s: State, i: nat)
    requires i < |s.entries|
  {
    && Down(s.entries[i].addr, Unit(s.grain)) == s.entries[i].addr
    && (s.entries[i].cfg.A == NA4 ==> s.grain == 0)
    && (i >= s.regions ==> s.entries[i] == ZERO)
  }

  /** A locked top-of-range entry also freezes the address below it. */
  predicate Pinned(s: State, i: nat) {
    i + 1 < |s.entries| && s.entries[i + 1].cfg.L && s.entries[i + 1].cfg.A == TOR
  }

  predicate Locked(s: State, i: nat) { i < |s.entries| && s.entries[i].cfg.L }

  function WriteAddr(s: State, i: nat, a: nat): State
    requires s.regions <= |s.entries|
  {
    if i >= s.regions || Locked(s, i) || Pinned(s, i) then s
    else s.(entries := s.entries[i := s.entries[i].(addr := Down(a, Unit(s.grain)))])
  }

  function Legal(s: State, c: PmpConfig): PmpConfig {
    if c.A == NA4 && s.grain >= 1 then c.(A := s.na4) else c
  }

  function WriteCfg(s: State, i: nat, c: PmpConfig): State
    requires s.regions <= |s.entries|
  {
    if i >= s.regions || Locked(s, i) then s
    else s.(entries := s.entries[i := s.entries[i].(cfg := Legal(s, c))])
  }

  // ---------------------------------------------------------------- bit scans

  /** The position of the lowest 1. */
  function LowestOne(a: nat): nat
    requires a > 0
  {
    if a % 2 == 1 then 0 else 1 + LowestOne(a / 2)
  }

  /** The position of the lowest 0. */
  function LowestZero(a: nat): nat {
    if a % 2 == 0 then 0 else 1 + LowestZero(a / 2)
  }

  function DetectedGranularity(a: nat): nat {
    if a == 0 then ADDRESSES - 1 else Pow2(LowestOne(a) + 2)
  }

  function NapotSize(a: nat): nat { Pow2(LowestZero(a) + 3) }

  // ---------------------------------------------------------------- the driver's calls

  function At(s: State, r: nat): Entry {
    if r < |s.entries| then s.entries[r] else ZERO
  }

  /** The configuration and address that get_region reports. */
  function GetRegion(s: State, r: nat): (PmpConfig, nat) {
    (At(s, r).cfg, View(s.grain, At(s, r).cfg.A, At(s, r).addr))
  }

  function SetRegion(s: State, r: nat, c: PmpConfig, a: nat): (int, State)
    requires s.regions <= |s.entries|
  {
    if r > s.regions then (2, s)
    else if c.A == NA4 && s.granularity > 4 then (3, s)
    else if c.A == NAPOT && s.granularity > NapotSize(a) then (3, s)
    else
      var (old', oldAddress) := GetRegion(s, r);
      if old'.L then (4, s)
      else
        var t := if oldAddress != a then WriteAddr(s, r, a) else s;
        (0, if old' != c then WriteCfg(t, r, c) else t)
  }

  /** What the public calls set in a region. */
  datatype Setting = Region(c: PmpConfig, a: nat) | Lock | Address(a: nat) | AddressMode(A: Mode)
                   | Executable(on: bool) | Writeable(on: bool) | Readable(on: bool)

  /** What a setting makes of a region's configuration and address. */
  function Apply(g: Setting, c: PmpConfig, a: nat): (PmpConfig, nat) {
    match g
    case Region(c', a') => (c', a')
    case Lock => (c.(L := true), a)
    case Address(a') => (c, a')
    case AddressMode(m) => (c.(A := m), a)
    case Executable(on) => (c.(X := on), a)
    case Writeable(on) => (c.(W := on), a)
    case Readable(on) => (c.(R := on), a)
  }

  /** Every call but set_region itself reads the region, changes one thing, and sets the region again;
      locking a locked region is a success. */
  function Set(s: State, r: nat, g: Setting): (int, State)
    requires s.regions <= |s.entries|
  {
    var (c, a) := GetRegion(s, r);
    var (c', a') := Apply(g, c, a);
    if g.Lock? && r <= s.regions && c.L then (0, s) else SetRegion(s, r, c', a')
  }

  /** The clearing loop of the initialisation, up to region n. */
  function ClearedUpTo(s: State, n: nat): (t: State)
    requires s.regions <= |s.entries|
    ensures t.regions <= |t.entries|
  {
    if n == 0 then s else SetRegion(ClearedUpTo(s, n - 1), n - 1, CLEARED, 0).1
  }

  function Init(s: State): State
    requires s.regions <= |s.entries|
  {
    var cleared := ClearedUpTo(s, s.regions);
    var (rc, ones) := Set(cleared, 0, Address(ADDRESSES - 1));
    if rc != 0 then cleared
    else
      var detected := ones.(granularity := DetectedGranularity(GetRegion(ones, 0).1));
      Set(detected, 0, Address(0)).1
  }

  datatype Call = SetCall(r: nat, g: Setting) | InitCall

  function Step(s: State, call: Call): (t: State)
    requires s.regions <= |s.entries|
    ensures t.regions <= |t.entries|
  {
    if call.InitCall? then Init(s) else Set(s, call.r, call.g).1
  }

  function Run(s: State, calls: seq<Call>): (t: State)
    requires s.regions <= |s.entries|
    ensures t.regions <= |t.entries|
  {
    if calls == [] then s else Step(Run(s, calls[..|calls| - 1]), calls[|calls| - 1])
  }

  // ---------------------------------------------------------------- locks hold over all runs

  /** t is s except that unlocked entries, and addresses not frozen by a locked successor, may differ. */
  ghost predicate LocksKept(s: State, t: State) {
    && |t.entries| == |s.entries| && t.regions == s.regions && t.grain == s.grain && t.na4 == s.na4
    && forall i :: 0 <= i < |s.entries| ==>
         && (Locked(s, i) ==> t.entries[i] == s.entries[i])
         && (Pinned(s, i) ==> t.entries[i].addr == s.entries[i].addr)
  }

  lemma LocksKeptTransitive(s: State, t: State, u: State)
    requires LocksKept(s, t) && LocksKept(t, u)
    ensures LocksKept(s, u)
  {
    forall i | 0 <= i < |s.entries|
      ensures (Locked(s, i) ==> u.entries[i] == s.entries[i]) && (Pinned(s, i) ==> u.entries[i].addr == s.entries[i].addr)
    {
      assert i + 1 < |s.entries| && Locked(s, i + 1) ==> t.entries[i + 1] == s.entries[i + 1];
    }
  }

  /** A call changes the entry of its own region at most, and nothing at all if it fails or the region
      is locked or not there. */
  lemma SetRegionFrame(s: State, r: nat, c: PmpConfig, a: nat)
    requires Ok(s)
    ensures var (rc, t) := SetRegion(s, r, c, a);
            && t == s.(entries := t.entries) && |t.entries| == |s.entries|
            && (forall i :: 0 <= i < |s.entries| && i != r ==> t.entries[i] == s.entries[i])
            && (rc != 0 || Locked(s, r) || r >= s.regions ==> t == s)
            && (Pinned(s, r) && r < |s.entries| ==> t.entries[r].addr == s.entries[r].addr)
            && Ok(t)
  {
    hide View, NapotSize;
    DownAgain(a, Unit(s.grain));
    var t := SetRegion(s, r, c, a).1;
    forall i | 0 <= i < MAX_REGIONS ensures EntryOk(t, i) {
      assert EntryOk(s, i);
    }
  }

  /** When a call on an existing region succeeds: the region is unlocked and the region asked for is not too
      small.  The refusal for its size comes first, then the one for its lock. */
  lemma SetRegionCode(s: State, r: nat, c: PmpConfig, a: nat)
    requires Ok(s) && r < s.regions
    ensures var rc, locked := SetRegion(s, r, c, a).0, s.entries[r].cfg.L;
            var tooSmall := || (c.A == NA4 && s.granularity > 4)
                            || (c.A == NAPOT && s.granularity > Pow2(LowestZero(a) + 3));
            && (rc == 0 <==> !locked && !tooSmall)
            && (rc == 4 <==> locked && !tooSmall)
            && (rc == 3 <==> tooSmall)
  {
    hide View, WriteAddr, WriteCfg, Pow2, LowestZero;
  }

  /** A setter that does not ask for another address leaves it, and sets the configuration it asks for. */
  lemma SetsConfig(s: State, r: nat, g: Setting)
    requires Ok(s) && r < s.regions && !g.Region? && Set(s, r, g).0 == 0
    ensures var t, e := Set(s, r, g).1, s.entries[r];
            && |t.entries| == |s.entries| && t == s.(entries := t.entries)
            && (forall i :: 0 <= i < |s.entries| && i != r ==> t.entries[i] == s.entries[i])
            && t.entries[r].cfg == Legal(s, Apply(g, e.cfg, 0).0)
            && (!g.Address? ==> t.entries[r].addr == e.addr)
  {
    hide View, NapotSize, Down, Unit;
    assert EntryOk(s, r);
    var (c, a) := GetRegion(s, r);
    var (c', a') := Apply(g, c, a);
    SetRegionFrame(s, r, c', a');
  }

  /** What each of the setters does to a region when it succeeds, permission by permission. */
  lemma SettersSet(s: State, r: nat, g: Setting)
    requires Ok(s) && r < s.regions && Set(s, r, g).0 == 0
    ensures var c, d := s.entries[r].cfg, Set(s, r, g).1.entries[r].cfg;
            match g
            case Lock => d.L && d.R == c.R && d.W == c.W && d.X == c.X && d.A == c.A
            case Executable(on) => d.X == on && d.R == c.R && d.W == c.W && d.A == c.A && d.L == c.L
            case Writeable(on) => d.W == on && d.R == c.R && d.X == c.X && d.A == c.A && d.L == c.L
            case Readable(on) => d.R == on && d.W == c.W && d.X == c.X && d.A == c.A && d.L == c.L
            case Address(_) => d == c
            case AddressMode(m) =>
              && d.A == (if m == NA4 && s.grain >= 1 then s.na4 else m)
              && d.R == c.R && d.W == c.W && d.X == c.X && d.L == c.L
            case Region(e, _) =>
              && d.A == (if e.A == NA4 && s.grain >= 1 then s.na4 else e.A)
              && d.R == e.R && d.W == e.W && d.X == e.X && d.L == e.L
  {
    hide View, NapotSize, Down, Unit;
    assert EntryOk(s, r);
    if !g.Region? { SetsConfig(s, r, g); }
  }

  /** The setters in terms of set_region: those that take an address set that one, with the configuration read;
      a number above `regions` is refused. */
  lemma SettersAre(s: State, r: nat, c: PmpConfig, a: nat)
    requires s.regions <= |s.entries|
    ensures Set(s, r, Region(c, a)) == SetRegion(s, r, c, a)
    ensures Set(s, r, Address(a)) == SetRegion(s, r, GetRegion(s, r).0, a)
    ensures r > s.regions ==> forall g :: Set(s, r, g) == (2, s)
  {
    hide GetRegion;
  }

  /** When a setter other than set_region succeeds: always on an unlocked region whose new configuration is not
      too fine, and for locking also on a locked one. */
  lemma SettersCode(s: State, r: nat, g: Setting)
    requires Ok(s) && r < s.regions
    ensures s.entries[r].cfg.L ==> (Set(s, r, g).0 == 0 <==> g.Lock?) && Set(s, r, g).1 == s
    ensures (var c := s.entries[r].cfg;
             && !c.L && c.A != NA4 && c.A != NAPOT
             && (g.Executable? || g.Writeable? || g.Readable? || g.Lock?)) ==> Set(s, r, g).0 == 0
  {
    hide View, NapotSize, WriteAddr, WriteCfg;
  }

  lemma WritesKeepOk(s: State, r: nat, c: PmpConfig, a: nat)
    requires Ok(s)
    ensures Ok(WriteCfg(s, r, c)) && Ok(WriteAddr(s, r, a))
  {
    hide Down, Unit;
    DownAgain(a, Unit(s.grain));
    forall i | 0 <= i < MAX_REGIONS ensures EntryOk(WriteCfg(s, r, c), i) && EntryOk(WriteAddr(s, r, a), i) {
      assert EntryOk(s, i);
    }
  }

  lemma DownAgain(a: nat, d: nat)
    requires 0 < d
    ensures Down(Down(a, d), d) == Down(a, d) <= a && Down(0, d) == 0
  {
    hide Div, Mod;
    DivMod(a, d);
    QuotientUnique(Div(a, d) * d, d, Div(a, d), 0);
    QuotientUnique(0, d, 0, 0);
  }

  lemma FailedSetIsNothing(s: State, r: nat, g: Setting)
    requires s.regions <= |s.entries| && Set(s, r, g).0 != 0
    ensures Set(s, r, g).1 == s
  {
    hide View, NapotSize, WriteAddr, WriteCfg;
  }

  lemma GranularityIsFree(s: State, g: nat)
    requires Ok(s)
    ensures Ok(s.(granularity := g))
  {
    assert forall i :: 0 <= i < MAX_REGIONS && EntryOk(s, i) ==> EntryOk(s.(granularity := g), i);
  }

  lemma SetKeepsLocks(s: State, r: nat, g: Setting)
    requires Ok(s)
    ensures LocksKept(s, Set(s, r, g).1) && Ok(Set(s, r, g).1)
  {
    hide SetRegion, Ok;
    var (c, a) := GetRegion(s, r);
    var (c', a') := Apply(g, c, a);
    SetRegionFrame(s, r, c', a');
  }

  lemma {:induction false} ClearingKeepsLocks(s: State, n: nat)
    requires Ok(s)
    ensures LocksKept(s, ClearedUpTo(s, n)) && Ok(ClearedUpTo(s, n)) && ClearedUpTo(s, n).granularity == s.granularity
  {
    hide SetRegion, Ok;
    if n > 0 {
      ClearingKeepsLocks(s, n - 1);
      SetRegionFrame(ClearedUpTo(s, n - 1), n - 1, CLEARED, 0);
      LocksKeptTransitive(s, ClearedUpTo(s, n - 1), ClearedUpTo(s, n));
    }
  }

  lemma InitKeepsLocks(s: State)
    requires Ok(s)
    ensures LocksKept(s, Init(s)) && Ok(Init(s))
  {
    hide SetRegion, Set, GetRegion, DetectedGranularity;
    var cleared := ClearedUpTo(s, s.regions);
    ClearingKeepsLocks(s, s.regions);
    var (rc, ones) := Set(cleared, 0, Address(ADDRESSES - 1));
    SetKeepsLocks(cleared, 0, Address(ADDRESSES - 1));
    LocksKeptTransitive(s, cleared, ones);
    if rc == 0 {
      var detected := ones.(granularity := DetectedGranularity(GetRegion(ones, 0).1));
      GranularityIsFree(ones, detected.granularity);
      SetKeepsLocks(detected, 0, Address(0));
      LocksKeptTransitive(s, detected, Init(s));
    }
  }

  /** Once locked, a region keeps its configuration and its address through any sequence of calls, and
      a locked top-of-range region keeps the address below it too. */
  lemma {:induction false} LockedForever(s: State, calls: seq<Call>)
    requires Ok(s)
    ensures LocksKept(s, Run(s, calls)) && Ok(Run(s, calls))
  {
    hide Set, Init;
    if calls != [] {
      var k := |calls| - 1;
      var t := Run(s, calls[..k]);
      LockedForever(s, calls[..k]);
      if calls[k].InitCall? { InitKeepsLocks(t); } else { SetKeepsLocks(t, calls[k].r, calls[k].g); }
      LocksKeptTransitive(s, t, Run(s, calls));
    }
  }

  // ---------------------------------------------------------------- granularity

  /** The recorded granularity is at least the smallest region the hardware can do. */
  ghost predicate GrainRecorded(s: State) { s.granularity >= Pow2(s.grain + 2) }

  lemma {:induction false} Pow2Strict(a: nat, b: nat)
    ensures Pow2(a) <= Pow2(b) <==> a <= b
  {
    hide Pow2;
    if a <= b { Pow2Monotone(a, b); }
    else { Pow2Monotone(b + 1, a); Pow2Double(b); }
  }

  lemma Pow2Double(a: nat)
    ensures Pow2(a + 1) == 2 * Pow2(a) > Pow2(a)
  {
  }

  /** A number ends in k ones exactly if its lowest 0 is at k or above. */
  lemma {:induction false} LowOnesIff(a: nat, k: nat)
    ensures k <= LowestZero(a) <==> Down(a, Pow2(k)) + Pow2(k) - 1 == a
  {
    if k == 0 {
      DownByOne(a);
    } else if a % 2 == 1 {
      LowOnesIff(a / 2, k - 1);
      DownHalf(a, Pow2(k - 1));
    } else {
      DownIsEven(a, Pow2(k - 1));
    }
  }

  lemma DownIsEven(a: nat, d: nat)
    requires 0 < d
    ensures Down(a, 2 * d) % 2 == 0
  {
    Associate(Div(a, 2 * d), d, 2);
  }

  lemma DownByOne(a: nat)
    ensures Down(a, 1) == a
  {
  }

  lemma DownHalf(a: nat, d: nat)
    requires 0 < d && a % 2 == 1
    ensures Down(a, 2 * d) == 2 * Down(a / 2, d)
  {
    hide Div;
    DivDiv(a, 2, d);
    Halves(a);
    Associate(Div(a / 2, d), d, 2);
    Associate(Div(a / 2, d), 2, d);
  }

  lemma Halves(a: nat)
    ensures Div(a, 2) == a / 2
  {
  }

  /** An accepted NAPOT address ends in enough ones, whatever has been recorded beyond the grain. */
  lemma AcceptedNapot(s: State, r: nat, c: PmpConfig, a: nat)
    requires GrainRecorded(s) && c.A == NAPOT && s.regions <= |s.entries| && SetRegion(s, r, c, a).0 == 0
    ensures s.grain <= LowestZero(a) + 1
  {
    hide Pow2, LowestZero, WriteAddr, WriteCfg;
    Pow2Strict(s.grain + 2, LowestZero(a) + 3);
  }

  /** The bytes a NAPOT entry matches: those whose word address agrees with pmpaddr above the lowest 0. */
  ghost predicate Matches(a: nat, x: nat) {
    var k := LowestZero(a) + 1;
    Div(Div(x, 4), Pow2(k)) == Div(a, Pow2(k))
  }

  function NapotBase(a: nat): nat { Down(a, Pow2(LowestZero(a) + 1)) * 4 }

  /** An accepted NAPOT region is the naturally aligned power-of-two range of NapotSize(a) bytes from
      NapotBase(a), and both are multiples of the hardware's grain. */
  lemma NapotRegion(s: State, r: nat, c: PmpConfig, a: nat, x: nat)
    requires GrainRecorded(s) && c.A == NAPOT && s.regions <= |s.entries| && SetRegion(s, r, c, a).0 == 0
    ensures Matches(a, x) <==> NapotBase(a) <= x < NapotBase(a) + NapotSize(a)
    ensures NapotBase(a) == Div(a, Pow2(LowestZero(a) + 1)) * NapotSize(a)
    ensures Mod(NapotSize(a), Pow2(s.grain + 2)) == 0 && Mod(NapotBase(a), Pow2(s.grain + 2)) == 0
  {
    hide Div, Mod, Pow2, SetRegion, LowestZero;
    AcceptedNapot(s, r, c, a);
    var k := LowestZero(a) + 1;
    var q, size := Div(a, Pow2(k)), Pow2(k + 2);
    Pow2Double(k);
    Pow2Double(k + 1);
    Associate(q, Pow2(k), 4);
    DivDiv(x, 4, Pow2(k));
    InBlock(x, size, q);
    Pow2Add(k - s.grain, s.grain + 2);
    assert NapotSize(a) == Pow2(k - s.grain) * Pow2(s.grain + 2);
    Associate(q, Pow2(k - s.grain), Pow2(s.grain + 2));
    assert NapotBase(a) == (q * Pow2(k - s.grain)) * Pow2(s.grain + 2);
    QuotientUnique(NapotSize(a), Pow2(s.grain + 2), Pow2(k - s.grain), 0);
    QuotientUnique(NapotBase(a), Pow2(s.grain + 2), q * Pow2(k - s.grain), 0);
  }

  lemma InBlock(x: nat, d: nat, q: nat)
    requires 0 < d
    ensures Div(x, d) == q <==> q * d <= x < q * d + d
  {
    hide Div;
    FloorIff(x, d, q);
    FloorIff(x, d, q + 1);
    Distribute(q, 1, d);
  }

  // ---------------------------------------------------------------- what initialisation records

  lemma LowestOneOfDouble(y: nat)
    requires y > 0
    ensures LowestOne(2 * y) == 1 + LowestOne(y)
  {
  }

  lemma {:induction false} LowestOneOfMultiple(m: nat, k: nat)
    requires m % 2 == 1
    ensures m * Pow2(k) > 0 && LowestOne(m * Pow2(k)) == k
  {
    if k == 0 {
      assert m * Pow2(0) == m;
    } else {
      hide Pow2, LowestOne;
      LowestOneOfMultiple(m, k - 1);
      Pow2Double(k - 1);
      Associate(m, 2, Pow2(k - 1));
      LowestOneOfDouble(m * Pow2(k - 1));
    }
  }

  /** Writing all ones and reading them back in OFF mode shows the grain. */
  lemma OnesShowGrain(grain: nat)
    requires grain <= 29
    ensures var shown := View(grain, OFF, Down(ADDRESSES - 1, Unit(grain)));
            shown > 0 && LowestOne(shown) == grain && DetectedGranularity(shown) == Pow2(grain + 2)
  {
    hide Div, LowestOne, DetectedGranularity;
    var p, m := Pow2(grain), Pow2(32 - grain) - 1;
    AddressSpace(grain);
    // 2^32 - 1 == m*p + (p - 1), with m odd
    Distribute(Pow2(32 - grain), -1, p);
    QuotientUnique(ADDRESSES - 1, p, m, p - 1);
    DownTwice(ADDRESSES - 1, grain);
    LowestOneOfMultiple(m, grain);
    DetectedOfNonzero(m * p);
  }

  lemma DetectedOfNonzero(a: nat)
    requires a > 0
    ensures DetectedGranularity(a) == Pow2(LowestOne(a) + 2)
  {
  }

  lemma Pow2Of32()
    ensures Pow2(32) == ADDRESSES
  {
    assert Pow2(8) == 0x100 by { assert Pow2(4) == 16; }
    Pow2Add(8, 8);
    Pow2Add(16, 16);
  }

  lemma AddressSpace(grain: nat)
    requires grain <= 29
    ensures Pow2(32 - grain) * Pow2(grain) == ADDRESSES && (Pow2(32 - grain) - 1) % 2 == 1
  {
    Pow2Of32();
    Pow2Add(32 - grain, grain);
  }

  /** Rounding down to the stored bits does not disturb rounding down to the grain. */
  lemma DownTwice(a: nat, grain: nat)
    ensures Down(Down(a, Unit(grain)), Pow2(grain)) == Down(a, Pow2(grain))
  {
    hide Div, Mod;
    if grain == 0 {
      DownByOne(a);
    } else {
      var u := Unit(grain);
      var q := Div(a, u);
      DivDiv(a, u, 2);
      Quotient(q, u);
      DivDiv(q * u, u, 2);
    }
  }

  lemma Quotient(q: nat, u: nat)
    requires 0 < u
    ensures Div(q * u, u) == q
  {
    QuotientUnique(q * u, u, q, 0);
  }

  /** Clearing leaves every unlocked region off and without permissions, and reading as address 0 unless a
      locked successor freezes it. */
  lemma {:induction false} ClearingRegion(s: State, n: nat, r: nat)
    requires Ok(s) && r < n <= s.regions && !Locked(s, r)
    ensures var t := ClearedUpTo(s, n);
            && GetRegion(t, r).0 == PmpConfig(false, false, false, OFF, false)
            && (!Pinned(s, r) ==> GetRegion(t, r).1 == 0)
    decreases n
  {
    hide Pow2, NapotSize, View, Down, Unit;
    var t := ClearedUpTo(s, n - 1);
    ClearingKeepsLocks(s, n - 1);
    SetRegionFrame(t, n - 1, CLEARED, 0);
    if r < n - 1 {
      ClearingRegion(s, n - 1, r);
    } else {
      ClearingStores(s, n - 1, n - 1);
      ClearingStores(s, n - 1, n);
      OneClear(t, r);
    }
  }

  lemma ClearingRegion0(s: State, n: nat)
    requires Ok(s) && 1 <= n <= s.regions && !Locked(s, 0)
    ensures var t := ClearedUpTo(s, n);
            && GetRegion(t, 0).0 == CLEARED && (!Pinned(s, 0) ==> GetRegion(t, 0).1 == 0)
            && Pinned(t, 0) == Pinned(s, 0)
  {
    hide Pow2, NapotSize, View, ClearedUpTo;
    ClearingRegion(s, n, 0);
    ClearingPinned0(s, n);
  }

  lemma {:induction false} ClearingPinned0(s: State, n: nat)
    requires Ok(s) && n <= s.regions
    ensures Pinned(ClearedUpTo(s, n), 0) == Pinned(s, 0)
  {
    hide Pow2, NapotSize, View;
    if n > 0 {
      ClearingPinned0(s, n - 1);
      ClearingKeepsLocks(s, n - 1);
      SetRegionFrame(ClearedUpTo(s, n - 1), n - 1, CLEARED, 0);
    }
  }

  lemma OneClear(s: State, r: nat)
    requires Ok(s) && r < s.regions && !Locked(s, r)
    ensures var t := SetRegion(s, r, CLEARED, 0).1;
            GetRegion(t, r).0 == CLEARED && (!Pinned(s, r) ==> GetRegion(t, r).1 == 0)
  {
    hide Pow2, Div;
    assert EntryOk(s, r);
    DownAgain(0, Unit(s.grain));
    DownAgain(0, Pow2(s.grain));
  }

  lemma SetKeepsGranularity(s: State, r: nat, g: Setting)
    requires Ok(s)
    ensures Set(s, r, g).1.granularity == s.granularity
  {
    hide View, NapotSize;
  }

  /** What writing all ones to a cleared region 0 shows. */
  lemma OnesShown(s: State)
    requires Ok(s) && 1 <= s.regions && At(s, 0).cfg == CLEARED
    ensures var (rc, t) := Set(s, 0, Address(ADDRESSES - 1));
            && rc == 0
            && GetRegion(t, 0).1 == if Pinned(s, 0) then GetRegion(s, 0).1
                                    else View(s.grain, OFF, Down(ADDRESSES - 1, Unit(s.grain)))
  {
    hide Pow2, Div, NapotSize;
    assert EntryOk(s, 0);
    DownAgain(s.entries[0].addr, Pow2(s.grain));
    DownTwice(ADDRESSES - 1, s.grain);
  }

  /** What the initialisation records: nothing if region 0 is locked; the hardware's smallest region if
      region 0's address can be written; and otherwise whatever the frozen address happens to show. */
  lemma InitRecords(s: State)
    requires Ok(s) && 1 <= s.regions
    ensures Locked(s, 0) ==> Init(s).granularity == s.granularity
    ensures !Locked(s, 0) && !Pinned(s, 0) ==> Init(s).granularity == Pow2(s.grain + 2)
    ensures !Locked(s, 0) && Pinned(s, 0) ==>
              Init(s).granularity == DetectedGranularity(Down(s.entries[0].addr, Pow2(s.grain)))
  {
    hide Pow2, Down, Set, DetectedGranularity, Unit;
    var cleared := ClearedUpTo(s, s.regions);
    ClearingKeepsLocks(s, s.regions);
    var (rc, ones) := Set(cleared, 0, Address(ADDRESSES - 1));
    SetKeepsGranularity(cleared, 0, Address(ADDRESSES - 1));
    SetKeepsLocks(cleared, 0, Address(ADDRESSES - 1));
    if Locked(s, 0) {
      LockedFails(cleared, Address(ADDRESSES - 1));
    } else {
      ClearingRegion0(s, s.regions);
      OnesShown(cleared);
      OnesShowGrain(s.grain);
      var detected := ones.(granularity := DetectedGranularity(GetRegion(ones, 0).1));
      GranularityIsFree(ones, detected.granularity);
      SetKeepsGranularity(detected, 0, Address(0));
    }
  }

  lemma LockedFails(s: State, g: Setting)
    requires Ok(s) && 1 <= s.regions && Locked(s, 0) && g.Address?
    ensures Set(s, 0, g).0 != 0
  {
    hide View, NapotSize;
  }

  /** A frozen address shows the grain exactly if its lowest visible bit is 1. */
  lemma DetectedExactIff(a: nat, grain: nat)
    requires grain <= 29
    ensures DetectedGranularity(Down(a, Pow2(grain))) == Pow2(grain + 2) <==> Div(a, Pow2(grain)) % 2 == 1
  {
    hide Div, Pow2, LowestOne, DetectedGranularity;
    var q, shown := Div(a, Pow2(grain)), Down(a, Pow2(grain));
    Pow2Double(grain + 1);
    if q == 0 {
      DetectedOfZero();
    } else {
      MulLe(1, q, Pow2(grain));
      DetectedOfNonzero(shown);
      if q % 2 == 1 {
        LowestOneOfMultiple(q, grain);
      } else {
        Pow2Double(grain);
        Associate(q / 2, 2, Pow2(grain));
        LowestOneAtLeast(q / 2, grain + 1);
        Pow2Strict(LowestOne(shown) + 2, grain + 2);
      }
    }
  }

  lemma DetectedOfZero()
    ensures DetectedGranularity(0) == ADDRESSES - 1
  {
  }

  /** With region 0 unlocked, the initialisation records the hardware's smallest region if and only if
      its address is not frozen, or is frozen at one whose lowest visible bit is 1. */
  lemma InitExactIff(s: State)
    requires Ok(s) && 1 <= s.regions && !Locked(s, 0)
    ensures Init(s).granularity == Pow2(s.grain + 2)
            <==> !Pinned(s, 0) || Div(s.entries[0].addr, Pow2(s.grain)) % 2 == 1
  {
    hide Init, Div, Pow2, DetectedGranularity;
    InitRecords(s);
    DetectedExactIff(s.entries[0].addr, s.grain);
  }

  /** Two regions with a 4-byte grain: set up as the range from 32 to 64 and locked, region 1 makes the
      next initialisation record 32 bytes. */
  lemma FrozenAddressExample(s: State)
    requires s == State(2, 0, OFF, seq(MAX_REGIONS, i => ZERO), 4)
    ensures var top := PmpConfig(true, false, false, TOR, true);
            var t := Run(s, [SetCall(0, Address(8)), SetCall(1, Region(top, 16))]);
            Ok(t) && !Locked(t, 0) && Pinned(t, 0) && Init(t).granularity == 32 && Pow2(t.grain + 2) == 4
  {
    var top := PmpConfig(true, false, false, TOR, true);
    var calls := [SetCall(0, Address(8)), SetCall(1, Region(top, 16))];
    var t1 := Set(s, 0, Address(8)).1;
    var t := Set(t1, 1, Region(top, 16)).1;
    FrozenAddressRun(s, t1, t);
    assert calls[..1] == [calls[0]] && [calls[0]][..0] == [];
    assert Run(s, [calls[0]]) == t1;
    FrozenAddressRecorded(t);
  }

  lemma FrozenAddressRun(s: State, t1: State, t: State)
    requires s == State(2, 0, OFF, seq(MAX_REGIONS, i => ZERO), 4)
    requires t1 == Set(s, 0, Address(8)).1 && t == Set(t1, 1, Region(PmpConfig(true, false, false, TOR, true), 16)).1
    ensures t == s.(entries := s.entries[0 := Entry(CLEARED, 8)][1 := Entry(PmpConfig(true, false, false, TOR, true), 16)])
  {
    assert forall a: nat :: Down(a, 1) == a by { forall a: nat ensures Down(a, 1) == a { DownByOne(a); } }
  }

  lemma FrozenAddressRecorded(t: State)
    requires t == State(2, 0, OFF, seq(MAX_REGIONS, i =>
                        if i == 0 then Entry(CLEARED, 8)
                        else if i == 1 then Entry(PmpConfig(true, false, false, TOR, true), 16) else ZERO), 4)
    ensures Ok(t) && !Locked(t, 0) && Pinned(t, 0) && Init(t).granularity == 32
  {
    hide Init;
    DownByOne(8);
    InitRecords(t);
    assert LowestOne(8) == 3 && Pow2(5) == 32;
  }

  /** The shifts of the two scans stay inside a 32-bit int. */
  ghost predicate Scannable(a: nat) { LowestZero(a) + 3 < XLEN }
  ghost predicate DetectScannable(a: nat) { a > 0 ==> LowestOne(a) + 2 < XLEN }

  /** For which pmpaddr values the scan of set_region finds a 0 at all, and for which its shift fits:
      all but all ones, and all that do not end in 29 ones. */
  lemma ScanEndsIff(a: nat)
    requires a < ADDRESSES
    ensures LowestZero(a) < XLEN <==> a != ADDRESSES - 1
    ensures Scannable(a) <==> a % 0x2000_0000 != 0x1FFF_FFFF
  {
    hide Pow2, Div, Mod;
    Pow2Of32();
    LowOnesIff(a, XLEN);
    QuotientUnique(a, ADDRESSES, 0, a);
    LowOnesIff(a, 29);
    assert Pow2(29) == 0x2000_0000 by { Pow2Double(29); Pow2Double(30); Pow2Double(31); }
    DivMod(a, 0x2000_0000);
    ModIs(a, 0x2000_0000);
  }

  lemma ModIs(a: nat, d: nat)
    requires 0 < d
    ensures Mod(a, d) == a % d
  {
  }

  /** For which values the shift of the initialisation's scan fits: 0, and all that do not end in 30
      zeros. */
  lemma DetectScanFitsIff(a: nat)
    ensures DetectScannable(a) <==> a == 0 || a % 0x4000_0000 != 0
  {
    hide Pow2, Div, Mod, LowestOne;
    if a > 0 {
      assert Pow2(30) == 0x4000_0000 by { Pow2Of32(); Pow2Double(30); Pow2Double(31); }
      DivMod(a, 0x4000_0000);
      ModIs(a, 0x4000_0000);
      if a % 0x4000_0000 == 0 { LowestOneAtLeast(Div(a, 0x4000_0000), 30); }
      if LowestOne(a) >= 30 { LowZeros(a, 30); }
    }
  }

  lemma {:induction false} LowZeros(a: nat, k: nat)
    requires a > 0 && k <= LowestOne(a)
    ensures Mod(a, Pow2(k)) == 0
  {
    if k > 0 {
      LowZeros(a / 2, k - 1);
      DivMod(a / 2, Pow2(k - 1));
      Associate(Div(a / 2, Pow2(k - 1)), Pow2(k - 1), 2);
      QuotientUnique(a, Pow2(k), Div(a / 2, Pow2(k - 1)), 0);
    }
  }

  /** The initialisation looks for a 0 in an address of all ones, which has none, exactly if region 0 is
      locked in NAPOT mode: the scan comes before the lock check. */
  lemma InitScansAllOnesIff(s: State)
    requires Ok(s)
    ensures At(ClearedUpTo(s, s.regions), 0).cfg.A == NAPOT <==> Locked(s, 0) && s.entries[0].cfg.A == NAPOT
    ensures !Scannable(ADDRESSES - 1)
  {
    hide Pow2, NapotSize, View;
    ClearingKeepsLocks(s, s.regions);
    assert EntryOk(s, 0);
    if s.regions > 0 && !Locked(s, 0) { ClearingRegion0(s, s.regions); }
    AllOnes(XLEN);
    Pow2Of32();
  }

  lemma {:induction false} AllOnes(k: nat)
    ensures LowestZero(Pow2(k) - 1) == k
  {
    if k > 0 { AllOnes(k - 1); }
  }

  /** set_region scans an address that makes it shift too far. */
  ghost predicate ScanFails(s: State, r: nat, c: PmpConfig, a: nat) {
    r <= s.regions && c.A == NAPOT && !Scannable(a)
  }

  ghost predicate SetScanFails(s: State, r: nat, g: Setting) {
    var (c, a) := GetRegion(s, r);
    var (c', a') := Apply(g, c, a);
    !(g.Lock? && c.L) && ScanFails(s, r, c', a')
  }

  /** Region 0 is locked in NAPOT mode, or its address is frozen at one that ends in 30 zeros. */
  ghost predicate InitScanFails(s: State)
    requires Ok(s)
  {
    || (Locked(s, 0) && s.entries[0].cfg.A == NAPOT)
    || (!Locked(s, 0) && Pinned(s, 0) && !DetectScannable(Down(s.entries[0].addr, Pow2(s.grain))))
  }

  /** The scans of the initialisation go wrong in these two cases and in no other. */
  lemma InitScans(s: State)
    requires Ok(s)
    ensures forall r :: 0 <= r < s.regions ==> !ScanFails(s, r, CLEARED, 0)
    ensures var cleared := ClearedUpTo(s, s.regions);
            var (rc, ones) := Set(cleared, 0, Address(ADDRESSES - 1));
            && (SetScanFails(cleared, 0, Address(ADDRESSES - 1)) <==> Locked(s, 0) && s.entries[0].cfg.A == NAPOT)
            && (rc == 0 ==> At(ones, 0).cfg.A == OFF)
            && (!SetScanFails(cleared, 0, Address(ADDRESSES - 1)) ==>
                  (InitScanFails(s) <==> rc == 0 && !DetectScannable(GetRegion(ones, 0).1)))
  {
    hide Pow2, NapotSize, Div;
    InitScansAllOnesIff(s);
    ClearingKeepsLocks(s, s.regions);
    assert EntryOk(s, 0);
    DownAgain(0, Pow2(s.grain));
    if s.regions > 0 && !Locked(s, 0) {
      ClearingRegion0(s, s.regions);
      OnesShown(ClearedUpTo(s, s.regions));
      OnesShowGrain(s.grain);
    }
  }

  lemma {:induction false} LowestOneAtLeast(m: nat, k: nat)
    requires m * Pow2(k) > 0
    ensures k <= LowestOne(m * Pow2(k))
  {
    if k > 0 {
      hide Pow2, LowestOne;
      Pow2Double(k - 1);
      Associate(m, 2, Pow2(k - 1));
      LowestOneAtLeast(m, k - 1);
      LowestOneOfDouble(m * Pow2(k - 1));
    }
  }

  /** Whatever address is read in OFF mode, no granularity below the hardware's is detected. */
  lemma DetectedIsCoarse(a: nat, grain: nat)
    requires grain <= 29
    ensures DetectedGranularity(Down(a, Pow2(grain))) >= Pow2(grain + 2)
  {
    hide Div, Pow2;
    var b := Down(a, Pow2(grain));
    if b > 0 {
      LowestOneAtLeast(Div(a, Pow2(grain)), grain);
      Pow2Strict(grain + 2, LowestOne(b) + 2);
    } else {
      Pow2Of32();
      Pow2Double(31);
      Pow2Strict(grain + 2, 31);
    }
  }

  /** Initialising with region 0 unlocked records a sound granularity, and once one is recorded it
      stays sound through every call. */
  lemma {:induction false} GrainForever(s: State, calls: seq<Call>)
    requires Ok(s) && 1 <= s.regions
    requires GrainRecorded(s) || (calls != [] && calls[0].InitCall? && !Locked(s, 0))
    ensures calls == [] || GrainRecorded(Run(s, calls))
  {
    hide Pow2, Init, Set, DetectedGranularity;
    if calls != [] {
      var k := |calls| - 1;
      var t := Run(s, calls[..k]);
      LockedForever(s, calls[..k]);
      if k > 0 { GrainForever(s, calls[..k]); }
      if calls[k].InitCall? {
        InitRecords(t);
        DetectedIsCoarse(t.entries[0].addr, t.grain);
        InitKeepsLocks(t);
      } else {
        SetKeepsGranularity(t, calls[k].r, calls[k].g);
        SetKeepsLocks(t, calls[k].r, calls[k].g);
      }
    }
  }

  // ---------------------------------------------------------------- reading back what was set

  /** The hardware has the mode and can show the address in it: with the bits below the grain clear, or
      in NAPOT mode with the unstored ones set. */
  ghost predicate Representable(s: State, c: PmpConfig, a: nat) {
    match c.A
    case NA4 => s.grain == 0
    case NAPOT => s.grain <= LowestZero(a) + 1
    case _ => Down(a, Pow2(s.grain)) == a
  }

  /** On hardware with 8-byte grain the entry stores a 1 in bit 0 that its current mode hides: the
      driver takes the address for the one wanted and does not write it, and NAPOT mode then shows it. */
  ghost predicate HiddenBit(s: State, r: nat, c: PmpConfig, a: nat) {
    && s.grain == 1 && c.A == NAPOT
    && (At(s, r).cfg.A == OFF || At(s, r).cfg.A == TOR)
    && a % 2 == 0 && At(s, r).addr == a + 1
  }

  lemma MultipleOfUnit(a: nat, grain: nat)
    requires Down(a, Pow2(grain)) == a
    ensures Down(a, Unit(grain)) == a
  {
    hide Div;
    if grain > 0 {
      var q, u := Div(a, Pow2(grain)), Unit(grain);
      Associate(q, 2, u);
      QuotientUnique(a, u, q * 2, 0);
    }
  }

  lemma AddBelow(stored: nat, u: nat)
    requires 0 < u && Down(stored, u) == stored
    ensures Down(stored + u - 1, u) == stored
  {
    hide Div, Mod;
    QuotientUnique(stored + u - 1, u, Div(stored, u), u - 1);
  }

  lemma DownToEven(a: nat)
    ensures Down(a, 2) == a - a % 2 && Down(a, 1) == a
  {
  }

  lemma UnitIsOne(grain: nat)
    ensures Unit(grain) == 1 <==> grain <= 1
    ensures Pow2(0) == 1 && Pow2(1) == 2
  {
  }

  /** What the hardware shows of an address written in NAPOT mode. */
  lemma NapotShownIff(a: nat, grain: nat)
    ensures View(grain, NAPOT, Down(a, Unit(grain))) == a <==> grain <= LowestZero(a) + 1
  {
    if grain == 0 { DownByOne(a); } else { LowOnesIff(a, grain - 1); }
  }

  lemma EvenHasNoOnes(a: nat)
    ensures a % 2 == 0 <==> LowestZero(a) == 0
  {
  }

  /** The address read after the call, when the driver wrote it. */
  lemma WrittenIff(s: State, r: nat, c: PmpConfig, a: nat)
    requires Ok(s) && r < s.regions && GetRegion(s, r).1 != a && (c.A == NA4 ==> s.grain == 0)
    ensures View(s.grain, c.A, Down(a, Unit(s.grain))) == a <==> Representable(s, c, a)
    ensures !HiddenBit(s, r, c, a)
  {
    hide Div, Pow2, Down, Unit, LowestZero;
    NapotShownIff(a, s.grain);
    DownTwice(a, s.grain);
    DownByOne(a);
    UnitIsOne(s.grain);
    if HiddenBit(s, r, c, a) { DownToEven(a + 1); }
  }

  /** The address read after the call, when the driver found it there already. */
  lemma KeptIff(s: State, r: nat, c: PmpConfig, a: nat)
    requires Ok(s) && r < s.regions && GetRegion(s, r).1 == a && (c.A == NA4 ==> s.grain == 0)
    ensures View(s.grain, c.A, At(s, r).addr) == a <==> Representable(s, c, a) && !HiddenBit(s, r, c, a)
  {
    hide Div, Pow2, Down, Unit, LowestZero;
    assert EntryOk(s, r);
    var u, p, e := Unit(s.grain), Pow2(s.grain), At(s, r);
    UnitIsOne(s.grain);
    DownToEven(e.addr);
    DownToEven(a);
    if e.cfg.A == NAPOT || e.cfg.A == NA4 {
      AddBelow(e.addr, u);
      DownTwice(a, s.grain);
      NapotShownIff(a, s.grain);
    } else {
      DownAgain(e.addr, p);
      MultipleOfUnit(a, s.grain);
      if s.grain > 0 { MultipleIsEven(a, s.grain); }
      EvenHasNoOnes(a);
    }
  }

  lemma MultipleIsEven(a: nat, grain: nat)
    requires grain > 0 && Down(a, Pow2(grain)) == a
    ensures a % 2 == 0
  {
    DownIsEven(a, Pow2(grain - 1));
  }

  /** A successful call on an existing region whose address is not frozen is read back exactly, if and
      only if the hardware can show the address in the mode asked for and has no hidden bit in the way;
      whatever granularity is recorded, if any. */
  lemma ReadBackIff(s: State, r: nat, c: PmpConfig, a: nat)
    requires Ok(s) && r < s.regions && !Pinned(s, r)
    requires SetRegion(s, r, c, a).0 == 0
    ensures GetRegion(SetRegion(s, r, c, a).1, r) == (c, a)
            <==> Representable(s, c, a) && !HiddenBit(s, r, c, a)
  {
    hide View, NapotSize, Down, Unit, Representable, HiddenBit;
    if c.A == NA4 && s.grain > 0 { NoNa4(s, r, c, a); }
    else if GetRegion(s, r).1 == a { KeptIff(s, r, c, a); }
    else { WrittenIff(s, r, c, a); }
  }

  lemma NoNa4(s: State, r: nat, c: PmpConfig, a: nat)
    requires Ok(s) && r < s.regions && c.A == NA4 && s.grain > 0 && SetRegion(s, r, c, a).0 == 0
    ensures GetRegion(SetRegion(s, r, c, a).1, r).0.A != NA4 && !Representable(s, c, a)
  {
    hide View, NapotSize, Down, Unit;
    assert EntryOk(s, r);
  }

  /** Once the grain is recorded, the driver refuses every NA4 or NAPOT address that the hardware cannot
      show. */
  lemma RefusesUnrepresentable(s: State, r: nat, c: PmpConfig, a: nat)
    requires GrainRecorded(s) && s.regions <= |s.entries| && SetRegion(s, r, c, a).0 == 0
    requires c.A == NAPOT || c.A == NA4
    ensures Representable(s, c, a)
  {
    hide Pow2, NapotSize, WriteAddr, WriteCfg;
    if c.A == NA4 {
      Pow2Double(0);
      Pow2Double(1);
      Pow2Strict(s.grain + 2, 2);
    } else {
      AcceptedNapot(s, r, c, a);
    }
  }

  /** Without an initialisation nothing is recorded and nothing refused: with a 4096-byte grain, asking
      for the 8-byte region at address 0 succeeds and yields the 4096-byte region there. */
  lemma UninitialisedExample(s: State)
    requires s == State(1, 10, OFF, seq(MAX_REGIONS, i => ZERO), 0)
    ensures var c := CLEARED.(A := NAPOT);
            && Ok(s) && SetRegion(s, 0, c, 0).0 == 0
            && GetRegion(SetRegion(s, 0, c, 0).1, 0) == (c, 511)
            && NapotSize(0) == 8 && NapotSize(511) == 4096
  {
    hide NapotSize, Div;
    assert Pow2(9) == 512 && Pow2(10) == 1024 by { assert Pow2(5) == 32; }
    DownAgain(0, 512);
    DownAgain(0, 1024);
    NapotSizes();
  }

  lemma NapotSizes()
    ensures NapotSize(0) == 8 && NapotSize(1) == 16 && NapotSize(511) == 4096
  {
    AllOnes(9);
    assert Pow2(4) == 16 && Pow2(9) == 512 && Pow2(12) == 4096 by { assert Pow2(6) == 64; }
    assert LowestZero(0) == 0 && LowestZero(1) == 1;
  }

  /** The hidden bit at work, on a hart with an 8-byte grain that records it: asking for the NAPOT
      region at address 1 and switching it off leaves a 1 that reads as 0; asking for the 8-byte region
      at address 0 then succeeds, and yields the 16-byte region that address 1 stands for. */
  lemma HiddenBitExample(s: State)
    requires s == State(1, 1, OFF, seq(MAX_REGIONS, i => ZERO), 8)
    ensures var c := CLEARED.(A := NAPOT);
            var off := Set(Set(s, 0, Region(c, 1)).1, 0, AddressMode(OFF)).1;
            var (rc, t) := Set(off, 0, Region(c, 0));
            && GetRegion(off, 0) == (CLEARED, 0) && rc == 0 && GetRegion(t, 0) == (c, 1)
            && NapotSize(0) == 8 && NapotSize(1) == 16
  {
    hide NapotSize, Div;
    NapotSizes();
    UnitIsOne(1);
    DownToEven(0);
    DownToEven(1);
  }

  // ---------------------------------------------------------------- where hidden bits come from

  /** A setter that succeeds writes the address register if the address asked for is not the one read. */
  predicate WritesAddress(s: State, r: nat, g: Setting)
    requires s.regions <= |s.entries|
  {
    var (c, a) := GetRegion(s, r);
    r < s.regions && !Locked(s, r) && !Pinned(s, r) && Set(s, r, g).0 == 0 && Apply(g, c, a).1 != a
  }

  /** The initialisation writes region 0, and every other region that does not read as 0. */
  predicate InitWritesAddress(s: State, r: nat) {
    r < s.regions && !Locked(s, r) && !Pinned(s, r) && (r == 0 || GetRegion(s, r).1 != 0)
  }

  /** The last address that a run really wrote to a region, or what the region held before it. */
  function LastWritten(s: State, calls: seq<Call>, r: nat): nat
    requires s.regions <= |s.entries|
  {
    if calls == [] then At(s, r).addr
    else
      var k := |calls| - 1;
      var t := Run(s, calls[..k]);
      match calls[k]
      case InitCall => if InitWritesAddress(t, r) then 0 else LastWritten(s, calls[..k], r)
      case SetCall(q, g) =>
        if q == r && WritesAddress(t, r, g) then Apply(g, GetRegion(t, r).0, GetRegion(t, r).1).1
        else LastWritten(s, calls[..k], r)
  }

  lemma SetStores(s: State, q: nat, g: Setting, r: nat)
    requires Ok(s) && s.grain <= 1
    ensures At(Set(s, q, g).1, r).addr
            == if q == r && WritesAddress(s, r, g) then Apply(g, GetRegion(s, r).0, GetRegion(s, r).1).1 else At(s, r).addr
  {
    hide View, NapotSize, Down;
    var (c, a) := GetRegion(s, q);
    var (c', a') := Apply(g, c, a);
    UnitIsOne(s.grain);
    DownByOne(a');
    SetRegionFrame(s, q, c', a');
  }

  lemma {:induction false} ClearingStores(s: State, n: nat, r: nat)
    requires Ok(s) && n <= s.regions
    ensures var t := ClearedUpTo(s, n);
            && (r >= n ==> At(t, r) == At(s, r))
            && (r < n ==> At(t, r).addr == if !Locked(s, r) && !Pinned(s, r) && GetRegion(s, r).1 != 0 then 0 else At(s, r).addr)
    decreases n
  {
    hide View, NapotSize, Down, Unit, Ok;
    Widths(s);
    if n > 0 {
      var t := ClearedUpTo(s, n - 1);
      ClearingStores(s, n - 1, r);
      ClearingStores(s, n - 1, n);
      ClearingKeepsLocks(s, n - 1);
      SetRegionFrame(t, n - 1, CLEARED, 0);
      DownAgain(0, Unit(s.grain));
      Widths(t);
    }
  }

  lemma Widths(s: State)
    requires Ok(s)
    ensures s.regions <= MAX_REGIONS == |s.entries|
  {
  }

  lemma InitStores(s: State, r: nat)
    requires Ok(s)
    ensures At(Init(s), r).addr == if InitWritesAddress(s, r) then 0 else At(s, r).addr
  {
    hide Pow2, View, NapotSize, Down, Unit, DetectedGranularity, Set;
    var cleared := ClearedUpTo(s, s.regions);
    ClearingStores(s, s.regions, r);
    ClearingKeepsLocks(s, s.regions);
    InitKeepsLocks(s);
    if r == 0 {
      if InitWritesAddress(s, 0) { InitClearsRegion0(s); }
      else if s.regions == 0 { NoRegions(s); }
    } else {
      var (rc, ones) := Set(cleared, 0, Address(ADDRESSES - 1));
      OtherRegions(cleared, Address(ADDRESSES - 1), r);
      if rc == 0 {
        var detected := ones.(granularity := DetectedGranularity(GetRegion(ones, 0).1));
        SetKeepsLocks(cleared, 0, Address(ADDRESSES - 1));
        GranularityIsFree(ones, detected.granularity);
        OtherRegions(detected, Address(0), r);
      }
    }
  }

  lemma OtherRegions(s: State, g: Setting, r: nat)
    requires Ok(s) && r > 0
    ensures At(Set(s, 0, g).1, r) == At(s, r)
  {
    hide SetRegion, View;
    var (c, a) := GetRegion(s, 0);
    SetRegionFrame(s, 0, Apply(g, c, a).0, Apply(g, c, a).1);
  }

  lemma NoRegions(s: State)
    requires Ok(s) && s.regions == 0
    ensures At(Init(s), 0) == At(s, 0) == ZERO
  {
    InitKeepsLocks(s);
    assert EntryOk(s, 0) && EntryOk(Init(s), 0);
  }

  lemma InitClearsRegion0(s: State)
    requires Ok(s) && 1 <= s.regions && !Locked(s, 0) && !Pinned(s, 0)
    ensures At(Init(s), 0).addr == 0
  {
    hide Pow2, Div, NapotSize, DetectedGranularity;
    var cleared := ClearedUpTo(s, s.regions);
    ClearingKeepsLocks(s, s.regions);
    ClearingRegion0(s, s.regions);
    OnesShown(cleared);
    OnesShowGrain(s.grain);
    DownAgain(0, Unit(s.grain));
  }

  lemma {:induction false} StoredIsLastWritten(s: State, calls: seq<Call>, r: nat)
    requires Ok(s) && s.grain <= 1
    ensures At(Run(s, calls), r).addr == LastWritten(s, calls, r)
  {
    hide Set, Init, WritesAddress, InitWritesAddress, GetRegion;
    if calls != [] {
      var k := |calls| - 1;
      StoredIsLastWritten(s, calls[..k], r);
      LockedForever(s, calls[..k]);
      match calls[k]
      case InitCall => InitStores(Run(s, calls[..k]), r);
      case SetCall(q, g) => SetStores(Run(s, calls[..k]), q, g, r);
    }
  }

  /** The initialisation switches every unlocked region off and takes its permissions away; unless its address
      is frozen it then reads as 0. */
  lemma InitClears(s: State, r: nat)
    requires Ok(s) && r < s.regions && !Locked(s, r)
    ensures GetRegion(Init(s), r).0 == PmpConfig(false, false, false, OFF, false)
    ensures !Pinned(s, r) ==> GetRegion(Init(s), r).1 == 0
  {
    hide Pow2, View, NapotSize, Down, Unit, DetectedGranularity, Set, Init, ClearedUpTo;
    ClearingRegion(s, s.regions, r);
    if r > 0 {
      InitIsClearing(s, r);
    } else {
      InitSetsAddress0(s);
      if !Pinned(s, 0) {
        InitClearsRegion0(s);
        ReadsZero(s.grain);
      }
    }
  }

  /** Outside region 0 the initialisation is its clearing loop. */
  lemma InitIsClearing(s: State, r: nat)
    requires Ok(s) && r > 0
    ensures At(Init(s), r) == At(ClearedUpTo(s, s.regions), r) && Init(s).grain == s.grain
    ensures ClearedUpTo(s, s.regions).grain == s.grain
  {
    hide Pow2, View, NapotSize, Down, Unit, DetectedGranularity, Set, ClearedUpTo;
    var cleared := ClearedUpTo(s, s.regions);
    ClearingKeepsLocks(s, s.regions);
    InitKeepsLocks(s);
    OtherRegions(cleared, Address(ADDRESSES - 1), r);
    var (rc, ones) := Set(cleared, 0, Address(ADDRESSES - 1));
    if rc == 0 {
      SetKeepsLocks(cleared, 0, Address(ADDRESSES - 1));
      var detected := ones.(granularity := DetectedGranularity(GetRegion(ones, 0).1));
      GranularityIsFree(ones, detected.granularity);
      OtherRegions(detected, Address(0), r);
    }
  }

  /** In region 0 it goes on to change the address only. */
  lemma InitSetsAddress0(s: State)
    requires Ok(s) && 1 <= s.regions
    ensures At(Init(s), 0).cfg == At(ClearedUpTo(s, s.regions), 0).cfg && Init(s).grain == s.grain
  {
    hide Pow2, View, NapotSize, Down, Unit, DetectedGranularity, Set, ClearedUpTo;
    var cleared := ClearedUpTo(s, s.regions);
    ClearingKeepsLocks(s, s.regions);
    InitKeepsLocks(s);
    KeepsConfig0(cleared, ADDRESSES - 1);
    var (rc, ones) := Set(cleared, 0, Address(ADDRESSES - 1));
    if rc == 0 {
      SetKeepsLocks(cleared, 0, Address(ADDRESSES - 1));
      var detected := ones.(granularity := DetectedGranularity(GetRegion(ones, 0).1));
      GranularityIsFree(ones, detected.granularity);
      KeepsConfig0(detected, 0);
    }
  }

  lemma KeepsConfig0(s: State, a: nat)
    requires Ok(s) && 1 <= s.regions
    ensures At(Set(s, 0, Address(a)).1, 0).cfg == At(s, 0).cfg
  {
    hide Pow2, View, NapotSize, Down, Unit, Set;
    assert EntryOk(s, 0);
    if Set(s, 0, Address(a)).0 == 0 { SetsConfig(s, 0, Address(a)); } else { FailedSetIsNothing(s, 0, Address(a)); }
  }

  lemma ReadsZero(grain: nat)
    ensures View(grain, OFF, 0) == 0
  {
    DownAgain(0, Pow2(grain));
  }

  /** When a hidden bit gets in the way, in terms of what a caller sees and has done: the region is off or
      top-of-range, reads as the address asked for, and the last address really written to it was odd. */
  lemma HiddenBitIff(s: State, calls: seq<Call>, r: nat, c: PmpConfig, a: nat)
    requires Ok(s) && s.grain == 1
    ensures var t := Run(s, calls);
            HiddenBit(t, r, c, a) <==>
              && c.A == NAPOT && (GetRegion(t, r).0.A == OFF || GetRegion(t, r).0.A == TOR)
              && GetRegion(t, r).1 == a && LastWritten(s, calls, r) % 2 == 1
  {
    hide Down, Run, LastWritten;
    LockedForever(s, calls);
    StoredIsLastWritten(s, calls, r);
    UnitIsOne(1);
    DownToEven(At(Run(s, calls), r).addr);
  }

  /** Initialising does not remove a hidden bit outside region 0: the region reads as 0 already. */
  lemma InitKeepsHiddenBit(s: State, r: nat)
    requires Ok(s) && s.grain == 1 && 0 < r < s.regions && !Locked(s, r) && !Pinned(s, r)
    requires At(s, r) == Entry(CLEARED, 1)
    ensures At(Init(s), r).addr == 1
  {
    hide Init;
    UnitIsOne(1);
    DownToEven(1);
    InitStores(s, r);
  }

  /** When a locked successor freezes the address, a successful call still changes the configuration
      but leaves the stored address alone. */
  lemma PinnedKeepsAddress(s: State, r: nat, c: PmpConfig, a: nat)
    requires Ok(s) && r < s.regions && Pinned(s, r)
    requires SetRegion(s, r, c, a).0 == 0
    ensures GetRegion(SetRegion(s, r, c, a).1, r) == (Legal(s, c), View(s.grain, Legal(s, c).A, At(s, r).addr))
  {
    hide View, NapotSize, Down, Unit;
    assert EntryOk(s, r);
  }

  /** The range check lets one region too many through: a call on it is refused only for its
      granularity, and does nothing either way. */
  lemma OneRegionTooMany(s: State, r: nat, c: PmpConfig, a: nat)
    requires Ok(s)
    ensures SetRegion(s, r, c, a).0 == 2 <==> r > s.regions
    ensures SetRegion(s, s.regions, c, a).1 == s
    ensures SetRegion(s, s.regions, c, a).0 == 0
            <==> !(c.A == NA4 && s.granularity > 4) && !(c.A == NAPOT && s.granularity > NapotSize(a))
  {
    hide View, NapotSize;
    if s.regions < MAX_REGIONS { assert EntryOk(s, s.regions); }
  }
}
