/**
 The PMP driver on the RV32 control registers: four configuration bytes share a pmpcfg register,
 and the driver rewrites one of them with a clear and a set of the whole register.
 */
module PmpDriver {
  import opened Arith
  import opened Bits
  import opened Pmp

  // ---------------------------------------------------------------- configuration bytes

  function ToByte(c: PmpConfig): bv8 {
    (if c.R then 1 else 0) | (if c.W then 2 else 0) | (if c.X then 4 else 0)
    | (match c.A case OFF => 0 case TOR => 8 case NA4 => 16 case NAPOT => 24)
    | (if c.L then 128 else 0)
  }

  function FromByte(b: bv8): PmpConfig {
    PmpConfig(b & 1 != 0, b & 2 != 0, b & 4 != 0,
              if b & 24 == 0 then OFF else if b & 24 == 8 then TOR else if b & 24 == 16 then NA4 else NAPOT,
              b & 128 != 0)
  }

  lemma ByteRoundTrip(c: PmpConfig)
    ensures FromByte(ToByte(c)) == c
  {
  }

  /** Where the fields are, as the RISC-V specification lays them out: R, W and X in bits 0 to 2, the mode in
      bits 3 and 4, and the lock in bit 7. */
  lemma ByteLayout(c: PmpConfig)
    ensures var b := ToByte(c);
            && (b & 0x01 != 0 <==> c.R) && (b & 0x02 != 0 <==> c.W) && (b & 0x04 != 0 <==> c.X)
            && (b & 0x80 != 0 <==> c.L) && b & 0x60 == 0
            && (b >> 3) & 0x03 == match c.A case OFF => 0 case TOR => 1 case NA4 => 2 case NAPOT => 3
  {
  }

  lemma ZeroByte()
    ensures FromByte(0) == CLEARED && ToByte(CLEARED) == 0
  {
  }

  // ---------------------------------------------------------------- four bytes in a register

  function ByteOf(w: bv32, k: nat): bv8
    requires k < 4
  {
    if k == 0 then (w & 0xFF) as bv8
    else if k == 1 then ((w >> 8) & 0xFF) as bv8
    else if k == 2 then ((w >> 16) & 0xFF) as bv8
    else ((w >> 24) & 0xFF) as bv8
  }

  /** b << (8 * k) */
  function Placed(b: bv8, k: nat): bv32
    requires k < 4
  {
    if k == 0 then b as bv32
    else if k == 1 then (b as bv32) << 8
    else if k == 2 then (b as bv32) << 16
    else (b as bv32) << 24
  }

  function WordOf(b0: bv8, b1: bv8, b2: bv8, b3: bv8): bv32 {
    Placed(b0, 0) | Placed(b1, 1) | Placed(b2, 2) | Placed(b3, 3)
  }

  function Both(a: bv8, b: bv8): bv8 { a | b }
  function Without(w: bv32, mask: bv32): bv32 { w & !mask }
  function With(w: bv32, bits: bv32): bv32 { w | bits }

  /** Entry 4n + k has bits 8k to 8k + 7 of register n. */
  lemma BytePositions(w: bv32)
    ensures ByteOf(w, 0) as bv32 == w & 0xFF && ByteOf(w, 1) as bv32 == (w >> 8) & 0xFF
    ensures ByteOf(w, 2) as bv32 == (w >> 16) & 0xFF && ByteOf(w, 3) as bv32 == w >> 24
  {
  }

  lemma BytesOfWord(b0: bv8, b1: bv8, b2: bv8, b3: bv8)
    ensures var w := WordOf(b0, b1, b2, b3);
            ByteOf(w, 0) == b0 && ByteOf(w, 1) == b1 && ByteOf(w, 2) == b2 && ByteOf(w, 3) == b3
  {
  }

  lemma ByteCleared(w: bv32, k: nat, j: nat)
    requires k < 4 && j < 4
    ensures ByteOf(Without(w, Placed(0xFF, k)), j) == if j == k then 0 else ByteOf(w, j)
  {
  }

  lemma ByteSet0(w: bv32, b: bv8, j: nat)
    requires j < 4
    ensures ByteOf(With(w, Placed(b, 0)), j) == if j == 0 then Both(ByteOf(w, j), b) else ByteOf(w, j)
  {
  }

  lemma ByteSet1(w: bv32, b: bv8, j: nat)
    requires j < 4
    ensures ByteOf(With(w, Placed(b, 1)), j) == if j == 1 then Both(ByteOf(w, j), b) else ByteOf(w, j)
  {
  }

  lemma ByteSet2(w: bv32, b: bv8, j: nat)
    requires j < 4
    ensures ByteOf(With(w, Placed(b, 2)), j) == if j == 2 then Both(ByteOf(w, j), b) else ByteOf(w, j)
  {
  }

  lemma ByteSet3(w: bv32, b: bv8, j: nat)
    requires j < 4
    ensures ByteOf(With(w, Placed(b, 3)), j) == if j == 3 then Both(ByteOf(w, j), b) else ByteOf(w, j)
  {
  }

  lemma ByteSet(w: bv32, b: bv8, k: nat, j: nat)
    requires k < 4 && j < 4
    ensures ByteOf(With(w, Placed(b, k)), j) == if j == k then Both(ByteOf(w, j), b) else ByteOf(w, j)
  {
    hide ByteOf, Placed, With, Both;
    if k == 0 { ByteSet0(w, b, j); } else if k == 1 { ByteSet1(w, b, j); }
    else if k == 2 { ByteSet2(w, b, j); } else { ByteSet3(w, b, j); }
  }

  // ---------------------------------------------------------------- the hart

  function ConfigAt(cfg: seq<bv32>, i: nat): PmpConfig
    requires |cfg| == 4 && i < MAX_REGIONS
  {
    FromByte(ByteOf(cfg[i / 4], i % 4))
  }

  /** The registers as a table of entries. */
  function EntriesOf(cfg: seq<bv32>, addr: seq<nat>): (e: seq<Entry>)
    requires |cfg| == 4 && |addr| == MAX_REGIONS
    ensures |e| == MAX_REGIONS
  {
    seq(MAX_REGIONS, i requires 0 <= i < MAX_REGIONS => Entry(ConfigAt(cfg, i), addr[i]))
  }

  /** How a call ends: with a return code, or in a shift that C leaves undefined. */
  datatype Outcome = Returned(rc: int) | BadShift

  datatype Scan = Found(granularity: nat) | TooFar

  class Hart {
    const regions: nat
    const grain: nat
    const na4: Mode
    var pmpcfg: seq<bv32>
    var pmpaddr: seq<nat>
    var granularity: nat

    ghost function Value(): State
      requires |pmpcfg| == 4 && |pmpaddr| == MAX_REGIONS
      reads `pmpcfg, `pmpaddr, `granularity
    {
      State(regions, grain, na4, EntriesOf(pmpcfg, pmpaddr), granularity)
    }

    ghost predicate Valid()
      reads `pmpcfg, `pmpaddr, `granularity
    {
      |pmpcfg| == 4 && |pmpaddr| == MAX_REGIONS && regions <= MAX_REGIONS && Ok(Value())
    }

    // -------------------------------------------------------------- the control registers

    /** What one configuration byte becomes when its register is written. */
    function Accepted(i: nat, old': bv8, new': bv8): bv8 {
      if i >= regions || FromByte(old').L then old'
      else ToByte(if FromByte(new').A == NA4 && grain >= 1 then FromByte(new').(A := na4) else FromByte(new'))
    }

    /** A write of a whole pmpcfg register: the hardware takes it byte by byte. */
    method WriteCfgRegister(n: nat, v: bv32)
      requires |pmpcfg| == 4 && n < 4
      modifies `pmpcfg
      ensures |pmpcfg| == 4 && forall m :: 0 <= m < 4 && m != n ==> pmpcfg[m] == old(pmpcfg[m])
      ensures forall k :: 0 <= k < 4 ==> ByteOf(pmpcfg[n], k) == Accepted(4 * n + k, ByteOf(old(pmpcfg[n]), k), ByteOf(v, k))
    {
      hide ByteOf, WordOf, Accepted;
      var w := pmpcfg[n];
      var b0, b1 := Accepted(4 * n, ByteOf(w, 0), ByteOf(v, 0)), Accepted(4 * n + 1, ByteOf(w, 1), ByteOf(v, 1));
      var b2, b3 := Accepted(4 * n + 2, ByteOf(w, 2), ByteOf(v, 2)), Accepted(4 * n + 3, ByteOf(w, 3), ByteOf(v, 3));
      pmpcfg := pmpcfg[n := WordOf(b0, b1, b2, b3)];
      BytesOfWord(b0, b1, b2, b3);
    }

    lemma Untouched(i: nat, b: bv8)
      requires FromByte(b).A == NA4 ==> grain == 0
      ensures FromByte(Accepted(i, b, b)) == FromByte(b)
    {
      hide FromByte, ToByte;
      ByteRoundTrip(FromByte(b));
    }

    /** Clearing the byte and then setting the new bits, as the hardware sees it. */
    lemma Replaced(i: nat, b: bv8, c: PmpConfig)
      ensures var b1 := Accepted(i, b, 0);
              FromByte(Accepted(i, b1, Both(b1, ToByte(c))))
              == if i >= regions || FromByte(b).L then FromByte(b) else if c.A == NA4 && grain >= 1 then c.(A := na4) else c
    {
      hide FromByte, ToByte, Both;
      ZeroByte();
      ByteRoundTrip(c);
      ByteRoundTrip(c.(A := na4));
      OrZero(ToByte(c));
    }

    /** One byte of a register through the clear and the set. */
    lemma ByteThrough(i: nat, r: nat, c: PmpConfig, w: bv32, w1: bv32, w2: bv32)
      requires i / 4 == r / 4 && (FromByte(ByteOf(w, i % 4)).A == NA4 ==> grain == 0)
      requires ByteOf(w1, i % 4) == Accepted(i, ByteOf(w, i % 4), ByteOf(Without(w, Placed(0xFF, r % 4)), i % 4))
      requires ByteOf(w2, i % 4) == Accepted(i, ByteOf(w1, i % 4), ByteOf(With(w1, Placed(ToByte(c), r % 4)), i % 4))
      ensures FromByte(ByteOf(w2, i % 4)) == NewConfig(i == r && i < regions, FromByte(ByteOf(w, i % 4)), c)
    {
      hide ByteOf, Placed, With, Without, FromByte, ToByte, Accepted, Both;
      var j, k := i % 4, r % 4;
      ByteCleared(w, k, j);
      ByteSet(w1, ToByte(c), k, j);
      if j == k {
        Replaced(i, ByteOf(w, j), c);
      } else {
        Untouched(i, ByteOf(w, j));
        Untouched(i, ByteOf(w1, j));
      }
    }

    /** The configuration an entry has after its byte, if it is the one written, has been replaced. */
    function NewConfig(written: bool, old': PmpConfig, c: PmpConfig): PmpConfig {
      if written && !old'.L then (if c.A == NA4 && grain >= 1 then c.(A := na4) else c) else old'
    }

    /** csrc pmpcfgN, mask; csrs pmpcfgN, bits: the entry's byte is replaced, and the three bytes beside
        it come out as they were, locked or not. */
    method ReplaceByte(r: nat, c: PmpConfig)
      requires Valid() && r < MAX_REGIONS
      modifies `pmpcfg
      ensures Valid() && Value() == WriteCfg(old(Value()), r, c)
    {
      hide ByteOf, Placed, With, Without, FromByte, ToByte, Accepted, Down, Unit;
      var n, k := r / 4, r % 4;
      ghost var s, cfg := Value(), pmpcfg;
      var w := pmpcfg[n];
      WriteCfgRegister(n, Without(w, Placed(0xFF, k)));
      var w1 := pmpcfg[n];
      WriteCfgRegister(n, With(w1, Placed(ToByte(c), k)));
      forall i | 0 <= i < MAX_REGIONS
        ensures ConfigAt(pmpcfg, i) == NewConfig(i == r && i < regions, ConfigAt(cfg, i), c)
      {
        assert EntryOk(s, i);
        if i / 4 == n { ByteThrough(i, r, c, w, w1, pmpcfg[n]); }
      }
      TableAfter(s, cfg, pmpcfg, r, c);
      WritesKeepOk(s, r, c, 0);
    }

    lemma TableAfter(s: State, cfg: seq<bv32>, cfg': seq<bv32>, r: nat, c: PmpConfig)
      requires |cfg| == |cfg'| == 4 && |pmpaddr| == MAX_REGIONS && r < MAX_REGIONS
      requires s == State(regions, grain, na4, EntriesOf(cfg, pmpaddr), granularity) && regions <= MAX_REGIONS
      requires forall i :: 0 <= i < MAX_REGIONS ==> ConfigAt(cfg', i) == NewConfig(i == r && i < regions, ConfigAt(cfg, i), c)
      ensures EntriesOf(cfg', pmpaddr) == WriteCfg(s, r, c).entries
    {
      hide ConfigAt;
    }

    /** csrw pmpaddrN, a */
    method WriteAddrRegister(r: nat, a: nat)
      requires Valid() && r < MAX_REGIONS
      modifies `pmpaddr
      ensures Valid() && Value() == WriteAddr(old(Value()), r, a)
    {
      hide ConfigAt, Down, Unit;
      ghost var s := Value();
      WritesKeepOk(s, r, CLEARED, a);
      var pinned := r + 1 < MAX_REGIONS && ConfigAt(pmpcfg, r + 1).L && ConfigAt(pmpcfg, r + 1).A == TOR;
      if r < regions && !ConfigAt(pmpcfg, r).L && !pinned {
        pmpaddr := pmpaddr[r := Down(a, Unit(grain))];
        assert EntriesOf(pmpcfg, pmpaddr) == WriteAddr(s, r, a).entries;
      }
    }

    // -------------------------------------------------------------- the driver

    /** The two reads of get_region, for a region the hart has or the one after its last. */
    method Read(r: nat) returns (c: PmpConfig, a: nat)
      requires Valid() && r <= regions
      ensures (c, a) == GetRegion(Value(), r)
    {
      hide ByteOf, FromByte, View;
      c, a := CLEARED, View(grain, OFF, 0);
      if r < MAX_REGIONS {
        c := ConfigAt(pmpcfg, r);
        a := View(grain, c.A, pmpaddr[r]);
      }
    }

    method GetRegionCall(r: nat) returns (rc: int, c: PmpConfig, a: nat)
      requires Valid()
      ensures rc == if r > regions then 2 else 0
      ensures rc == 0 ==> (c, a) == GetRegion(Value(), r)
    {
      rc, c, a := 2, CLEARED, 0;
      if r <= regions {
        c, a := Read(r);
        rc := 0;
      }
    }

    method SetRegionCall(r: nat, c: PmpConfig, a: nat) returns (o: Outcome)
      requires Valid()
      modifies `pmpcfg, `pmpaddr
      ensures Valid()
      ensures o == if ScanFails(old(Value()), r, c, a) then BadShift else Returned(SetRegion(old(Value()), r, c, a).0)
      ensures Value() == if o.BadShift? then old(Value()) else SetRegion(old(Value()), r, c, a).1
    {
      hide View, NapotSize, Scannable, Ok, ConfigAt;
      if r > regions { return Returned(2); }
      if c.A == NA4 && granularity > 4 { return Returned(3); }
      if c.A == NAPOT {
        var size := PmpaddrGranularity(a);
        if size.TooFar? { return BadShift; }
        if granularity > size.granularity { return Returned(3); }
      }
      var oldConfig, oldAddress := Read(r);
      if oldConfig.L { return Returned(4); }
      if oldAddress != a && r < MAX_REGIONS { WriteAddrRegister(r, a); }
      if oldConfig != c && r < MAX_REGIONS { ReplaceByte(r, c); }
      o := Returned(0);
    }

    /** Lock, set_address, set_address_mode, set_executable, set_writeable and set_readable are this
        method with the corresponding setting. */
    method SetCall(r: nat, g: Setting) returns (o: Outcome)
      requires Valid()
      modifies `pmpcfg, `pmpaddr
      ensures Valid()
      ensures o == if SetScanFails(old(Value()), r, g) then BadShift else Returned(Set(old(Value()), r, g).0)
      ensures Value() == if o.BadShift? then old(Value()) else Set(old(Value()), r, g).1
    {
      hide View, SetRegion, Scannable, Ok, ConfigAt;
      var rc, c, a := GetRegionCall(r);
      if rc != 0 {
        BeyondLast(Value(), r, g);
        return Returned(rc);
      }
      if g.Lock? && c.L { return Returned(0); }
      var (c', a') := Apply(g, c, a);
      o := SetRegionCall(r, c', a');
    }

    method InitCall() returns (o: Outcome)
      requires Valid()
      modifies `pmpcfg, `pmpaddr, `granularity
      ensures Valid()
      ensures o == if InitScanFails(old(Value())) then BadShift else Returned(0)
      ensures o == Returned(0) ==> Value() == Init(old(Value()))
      ensures o.BadShift? ==> var cleared := ClearedUpTo(old(Value()), regions);
                Value() == if old(Locked(Value(), 0)) then cleared else Set(cleared, 0, Address(ADDRESSES - 1)).1
    {
      hide View, SetRegion, DetectedGranularity, DetectScannable, Scannable, ConfigAt, Ok, Pow2, Div, LocksKept;
      ghost var s := Value();
      InitScans(s);
      var i := 0;
      while i < regions
        invariant 0 <= i <= regions && Valid() && Value() == ClearedUpTo(s, i)
      {
        var rc := SetRegionCall(i, CLEARED, 0);
        i := i + 1;
      }
      o := SetCall(0, Address(ADDRESSES - 1));
      if o.BadShift? { return; }
      if o.rc != 0 {
        FailedSetIsNothing(ClearedUpTo(s, regions), 0, Address(ADDRESSES - 1));
        return Returned(0);
      }
      var rc, c, a := GetRegionCall(0);
      var detected := DetectGranularity(a);
      if detected.TooFar? { return BadShift; }
      GranularityIsFree(Value(), DetectedGranularity(a));
      granularity := detected.granularity;
      o := SetCall(0, Address(0));
      o := Returned(0);
    }
  }

  // ---------------------------------------------------------------- the bit scans

  /** A shift by the width of the register, or one whose result does not fit, ends a scan. */
  method DetectGranularity(address: nat) returns (g: Scan)
    ensures g == if DetectScannable(address) then Found(DetectedGranularity(address)) else TooFar
  {
    if address == 0 { return Found(ADDRESSES - 1); }
    var index := 0;
    while index < XLEN && Shr(address, index) % 2 == 0
      invariant 0 <= index <= XLEN
      invariant Shr(address, index) > 0 && LowestOne(address) == index + LowestOne(Shr(address, index))
    {
      ShrStep(address, index);
      index := index + 1;
    }
    if index + 2 >= XLEN { return TooFar; }
    g := Found(Pow2(index + 2));
  }

  method PmpaddrGranularity(address: nat) returns (g: Scan)
    ensures g == if Scannable(address) then Found(NapotSize(address)) else TooFar
  {
    var index := 0;
    while index < XLEN && Shr(address, index) % 2 == 1
      invariant 0 <= index <= XLEN
      invariant LowestZero(address) == index + LowestZero(Shr(address, index))
    {
      ShrStep(address, index);
      index := index + 1;
    }
    if index + 3 >= XLEN { return TooFar; }
    g := Found(Pow2(index + 3));
  }

  lemma BeyondLast(s: State, r: nat, g: Setting)
    requires s.regions <= |s.entries| && r > s.regions
    ensures Set(s, r, g) == (2, s)
  {
  }

  lemma OrZero(b: bv8)
    ensures Both(0, b) == b
  {
  }
}
