/**
 The SPI master.  A transfer stores command, address, dummy and data bytes one at a time, and waits for
 a reply before it stores the next one.  A stored byte waits in the transmit queue until the controller
 shifts it out, at any instant and on whatever bus the registers select at that instant; its reply then
 waits in the receive queue.  Logs list what driver and controller do in the order in which it happens,
 so that they range over all interleavings of the two.
 */
module SpiTraffic {

  // ---------------------------------------------------------------- configuration

  datatype MultiWire = AllWires | DataOnly | AddrData

  /** `protocol` is the C enumeration: 0 single, 1 dual, 2 quad, and anything else is unsupported. */
  datatype Config = Config(protocol: nat, polarity: bool, phase: bool, littleEndian: bool, csActiveHigh: bool,
                           csid: nat, cmdNum: nat, addrNum: nat, dummyNum: nat, multiWire: MultiWire)

  /** Everything that decides how one byte travels: wires used, bit order, frame length, clock mode,
      and the chip select, its mode and its idle level. */
  datatype Bus = Bus(proto: nat, lsbFirst: bool, rxOff: bool, frameLen: nat, polarity: bool, phase: bool,
                     csid: nat, csdef: nat, csmode: nat)

  const FRAME_LEN_8: nat := 0x8_0000
  const CSMODE_AUTO: nat := 0
  const CSMODE_HOLD: nat := 2

  function ProtoBits(protocol: nat): nat {
    if protocol == 1 then 1 else if protocol == 2 then 2 else 0
  }

  /** The wires that the byte at position i of a transfer uses: the multi-wire mode says from which
      phase on the configured protocol applies, and before that one wire is used. */
  function ProtoAt(c: Config, i: nat): nat {
    if c.multiWire.AllWires? || (c.multiWire.AddrData? && i >= c.cmdNum)
       || (c.multiWire.DataOnly? && i >= c.cmdNum + c.addrNum + c.dummyNum)
    then ProtoBits(c.protocol) else 0
  }

  /** What configure_spi selects, before any mode switch. */
  function FirstProto(c: Config): (p: nat)
    ensures p <= 2
  {
    if c.multiWire.AllWires? then ProtoBits(c.protocol) else 0
  }

  /** The bus of a configuration with protocol bits p. */
  function OnBus(c: Config, p: nat): Bus {
    Bus(p, c.littleEndian, false, FRAME_LEN_8, c.polarity, c.phase,
        c.csid, if c.csActiveHigh then 0 else 1, CSMODE_HOLD)
  }

  function BusAt(c: Config, i: nat): Bus { OnBus(c, ProtoAt(c, i)) }

  /** The bus of each phase: the configured wires where the multi-wire mode has them and a single one before,
      and everything else as configured, with eight-bit frames, the receiver on and the select held. */
  lemma BusByPhase(c: Config, k: nat)
    ensures var b := BusAt(c, k);
            && b.lsbFirst == c.littleEndian && !b.rxOff && b.frameLen == 0x8_0000
            && b.polarity == c.polarity && b.phase == c.phase
            && b.csid == c.csid && b.csdef == (if c.csActiveHigh then 0 else 1) && b.csmode == 2
    ensures var wires := if c.protocol == 1 then 1 else if c.protocol == 2 then 2 else 0;
            && (k < c.cmdNum ==> BusAt(c, k).proto == if c.multiWire.AllWires? then wires else 0)
            && (c.cmdNum <= k < c.cmdNum + c.addrNum + c.dummyNum ==>
                  BusAt(c, k).proto == if c.multiWire.DataOnly? then 0 else wires)
            && (c.cmdNum + c.addrNum + c.dummyNum <= k ==> BusAt(c, k).proto == wires)
  {
  }

  function Released(bus: Bus): Bus { bus.(csmode := CSMODE_AUTO) }

  function Head(c: Config): nat { c.cmdNum + c.addrNum + c.dummyNum }

  /** How many bytes a transfer stores: the data phase runs up to len, but the three phases before it do
      not look at len. */
  function Total(c: Config, len: nat): nat { if len < Head(c) then Head(c) else len }

  // ---------------------------------------------------------------- the controller

  /** One byte on the wire, and how it travelled. */
  datatype Frame = Frame(data: nat, bus: Bus)

  /** The controller: every byte ever stored, the frames and replies of those shifted out so far, and how
      many replies have been taken.  Byte, frame and reply have the same number. */
  datatype Machine = Machine(bus: Bus, stored: seq<nat>, wire: seq<Frame>, replies: seq<nat>, taken: nat)

  /** The driver writes a register, stores a byte, takes a reply, or finds none and gives up; the controller
      shifts a byte out. */
  datatype Event = Write(bus: Bus) | Store(data: nat) | Take | Miss | Shift(reply: nat)

  ghost predicate Ok(m: Machine) {
    && m.taken <= |m.replies| == |m.wire| <= |m.stored|
    && (forall j :: 0 <= j < |m.wire| ==> m.wire[j].data == m.stored[j])
    && (m.bus.rxOff ==> |m.wire| == |m.stored|)
  }

  /** The bytes whose replies have not been taken: still to be shifted out, or answered and waiting. */
  function Owed(m: Machine): nat
    requires m.taken <= |m.stored|
  {
    |m.stored| - m.taken
  }

  /** A reply can be taken only if there is one.  With the receiver off there would be none, so nothing
      is stored then, and it is not switched off. */
  predicate Possible(m: Machine, e: Event) {
    match e
    case Write(bus) => bus.rxOff ==> m.bus.rxOff
    case Store(_) => !m.bus.rxOff
    case Take => m.taken < |m.replies|
    case Miss => m.taken == |m.replies|
    case Shift(_) => |m.wire| < |m.stored|
  }

  /** An event that is not possible leaves the machine as it is. */
  function Step(m: Machine, e: Event): Machine {
    if !Possible(m, e) then m
    else match e
      case Write(bus) => m.(bus := bus)
      case Store(b) => m.(stored := m.stored + [b])
      case Take => m.(taken := m.taken + 1)
      case Miss => m
      case Shift(r) => m.(wire := m.wire + [Frame(m.stored[|m.wire|], m.bus)], replies := m.replies + [r])
  }

  function Run(m: Machine, log: seq<Event>): Machine {
    if log == [] then m else Step(Run(m, log[..|log| - 1]), log[|log| - 1])
  }

  predicate Legal(m: Machine, log: seq<Event>) {
    log != [] ==>
      Legal(m, log[..|log| - 1]) && Possible(Run(m, log[..|log| - 1]), log[|log| - 1])
  }

  /** What the driver does in a log. */
  function DriverPart(log: seq<Event>): seq<Event> {
    if log == [] then []
    else DriverPart(log[..|log| - 1]) + if log[|log| - 1].Shift? then [] else [log[|log| - 1]]
  }

  lemma AppendDriver(log: seq<Event>, e: Event)
    ensures DriverPart(log + [e]) == DriverPart(log) + if e.Shift? then [] else [e]
  {
    assert (log + [e])[..|log|] == log;
  }

  lemma Append(m: Machine, log: seq<Event>, e: Event)
    ensures Run(m, log + [e]) == Step(Run(m, log), e)
    ensures Legal(m, log + [e]) <==> Legal(m, log) && Possible(Run(m, log), e)
    ensures DriverPart(log + [e]) == DriverPart(log) + if e.Shift? then [] else [e]
  {
    assert (log + [e])[..|log|] == log;
  }

  lemma NoEvents(m: Machine)
    ensures Run(m, []) == m && Legal(m, []) && DriverPart([]) == []
  {
  }

  lemma {:induction false} Concat(m: Machine, l1: seq<Event>, l2: seq<Event>)
    ensures Run(m, l1 + l2) == Run(Run(m, l1), l2)
    ensures Legal(m, l1 + l2) <==> Legal(m, l1) && Legal(Run(m, l1), l2)
    ensures DriverPart(l1 + l2) == DriverPart(l1) + DriverPart(l2)
  {
    hide Step, Possible;
    if l2 == [] {
      assert l1 + l2 == l1;
    } else {
      var k := |l2| - 1;
      Concat(m, l1, l2[..k]);
      assert l1 + l2 == (l1 + l2[..k]) + [l2[k]] && l2 == l2[..k] + [l2[k]];
      Append(m, l1 + l2[..k], l2[k]);
      Append(Run(m, l1), l2[..k], l2[k]);
    }
  }

  /** A log can be cut wherever its driver part can. */
  lemma {:induction false} Cut(log: seq<Event>, p: seq<Event>, q: seq<Event>) returns (l1: seq<Event>, l2: seq<Event>)
    requires DriverPart(log) == p + q
    ensures log == l1 + l2 && DriverPart(l1) == p && DriverPart(l2) == q
  {
    if q == [] {
      assert p + q == p;
      l1, l2 := log, [];
    } else {
      assert log != [];
      hide DriverPart;
      var k := |log| - 1;
      assert log == log[..k] + [log[k]];
      AppendDriver(log[..k], log[k]);
      var j := if log[k].Shift? then |q| else |q| - 1;
      Front(DriverPart(log[..k]), log[k], p, q);
      l1, l2 := Cut(log[..k], p, q[..j]);
      AppendDriver(l2, log[k]);
      l2 := l2 + [log[k]];
    }
  }

  lemma Front(d: seq<Event>, e: Event, p: seq<Event>, q: seq<Event>)
    requires q != [] && d + (if e.Shift? then [] else [e]) == p + q
    ensures var j := if e.Shift? then |q| else |q| - 1;
            d == p + q[..j] && q[..j] + (if e.Shift? then [] else [e]) == q
  {
    if e.Shift? {
      assert d + [] == d && q[..|q|] == q && q + [] == q;
    } else {
      assert d == (p + q)[..|d|] && e == (p + q)[|d|];
    }
  }

  // ---------------------------------------------------------------- what a log does

  ghost function Stores(p: seq<Event>): seq<nat> {
    if p == [] then [] else Stores(p[..|p| - 1]) + if p[|p| - 1].Store? then [p[|p| - 1].data] else []
  }

  ghost function Takes(p: seq<Event>): nat {
    if p == [] then 0 else Takes(p[..|p| - 1]) + if p[|p| - 1].Take? then 1 else 0
  }

  ghost function BusAfter(b: Bus, p: seq<Event>): Bus {
    if p == [] then b else if p[|p| - 1].Write? then p[|p| - 1].bus else BusAfter(b, p[..|p| - 1])
  }

  ghost predicate Seen(b: Bus, p: seq<Event>, x: Bus) { x == b || Write(x) in p }

  /** Everything one event does. */
  lemma StepEffect(m: Machine, e: Event)
    requires Ok(m) && Possible(m, e)
    ensures var t := Step(m, e);
            && Ok(t) && t.stored == m.stored + (if e.Store? then [e.data] else [])
            && t.taken == m.taken + (if e.Take? then 1 else 0) && t.bus == (if e.Write? then e.bus else m.bus)
            && (if e.Shift?
                then |t.wire| == |m.wire| + 1 && m.wire <= t.wire && m.replies <= t.replies
                     && t.wire[|m.wire|].bus == m.bus
                else t.wire == m.wire && t.replies == m.replies)
  {
  }

  lemma ProgramStep(b: Bus, p: seq<Event>, e: Event)
    ensures Stores(p + [e]) == Stores(p) + (if e.Store? then [e.data] else [])
    ensures Takes(p + [e]) == Takes(p) + (if e.Take? then 1 else 0)
    ensures BusAfter(b, p + [e]) == if e.Write? then e.bus else BusAfter(b, p)
  {
    assert (p + [e])[..|p|] == p;
  }

  /** The driver's part of a log decides what is stored, taken and selected; whatever the controller does,
      it extends the wire by frames on buses that were selected. */
  lemma {:induction false} LogEffect(m: Machine, log: seq<Event>)
    requires Ok(m) && Legal(m, log)
    ensures var t, p := Run(m, log), DriverPart(log);
            && Ok(t) && t.stored == m.stored + Stores(p) && t.taken == m.taken + Takes(p) && t.bus == BusAfter(m.bus, p)
            && m.wire <= t.wire && m.replies <= t.replies
            && forall j :: |m.wire| <= j < |t.wire| ==> Seen(m.bus, p, t.wire[j].bus)
  {
    hide Step, Possible, Ok, Stores, Takes, BusAfter, Run, Legal, DriverPart;
    if log == [] {
      NoEvents(m);
      NothingDone(m);
    } else {
      var k := |log| - 1;
      assert log == log[..k] + [log[k]];
      Append(m, log[..k], log[k]);
      var u, p := Run(m, log[..k]), DriverPart(log[..k]);
      LogEffect(m, log[..k]);
      StepEffect(u, log[k]);
      BusIsSeen(m.bus, p);
      if log[k].Shift? {
        assert p + [] == p;
      } else {
        ProgramStep(m.bus, p, log[k]);
        assert forall x :: Seen(m.bus, p, x) ==> Seen(m.bus, DriverPart(log), x);
      }
    }
  }

  lemma NothingDone(m: Machine)
    ensures Stores([]) == [] && Takes([]) == 0 && BusAfter(m.bus, []) == m.bus
  {
  }

  lemma {:induction false} BusIsSeen(b: Bus, p: seq<Event>)
    ensures Seen(b, p, BusAfter(b, p))
  {
    if p != [] { BusIsSeen(b, p[..|p| - 1]); }
  }

  lemma {:induction false} OnlyWrites(p: seq<Event>)
    requires forall e :: e in p ==> e.Write?
    ensures Stores(p) == [] && Takes(p) == 0
  {
    if p != [] {
      assert p[|p| - 1] in p;
      OnlyWrites(p[..|p| - 1]);
    }
  }

  // ---------------------------------------------------------------- the driver's program

  function Writes(buses: seq<Bus>): (p: seq<Event>)
    ensures |p| == |buses|
  {
    seq(|buses|, k requires 0 <= k < |buses| => Write(buses[k]))
  }

  /** The settings before the mode switch in front of byte i. */
  function Prior(c: Config, i: nat): Bus {
    if i == 0 then OnBus(c, FirstProto(c)) else BusAt(c, i - 1)
  }

  /** The mode switch in front of byte i: at most one of the two does anything, and in single mode the
      driver leaves it at clearing the field. */
  function Switch(c: Config, i: nat): seq<Event> {
    if (c.multiWire.AddrData? && i == c.cmdNum) || (c.multiWire.DataOnly? && i == Head(c)) then
      if ProtoBits(c.protocol) == 0 then [Write(OnBus(c, 0))]
      else [Write(OnBus(c, 0)), Write(OnBus(c, ProtoBits(c.protocol)))]
    else []
  }

  /** The first n bytes of a transfer. */
  function Bytes(c: Config, stream: seq<nat>, n: nat): seq<Event>
    requires n <= |stream|
  {
    if n == 0 then [] else Bytes(c, stream, n - 1) + (Switch(c, n - 1) + [Store(stream[n - 1]), Take])
  }

  /** What follows n bytes: the release, or one more byte without a reply, and the release. */
  function End(c: Config, stream: seq<nat>, n: nat, timedOut: bool): seq<Event>
    requires timedOut ==> n < |stream|
  {
    var release := Write(Released(BusAt(c, n)));
    Switch(c, n) + if timedOut then [Store(stream[n]), Miss, release] else [release]
  }

  /** The register writes of the configuration, up to the one that switches the receiver on. */
  function ConfigStart(c: Config, b: Bus): seq<Event> {
    var b1 := b.(proto := 0);
    var b2 := b1.(proto := FirstProto(c));
    var b3 := b2.(polarity := c.polarity);
    var b4 := b3.(phase := c.phase);
    [Write(b1), Write(b2), Write(b3), Write(b4), Write(b4.(lsbFirst := c.littleEndian))]
  }

  /** The settings after that, but for the frame length and the chip select's level, number and mode. */
  function WithReceiver(c: Config, b: Bus): Bus {
    OnBus(c, FirstProto(c)).(csdef := b.csdef, frameLen := b.frameLen, csid := b.csid, csmode := b.csmode)
  }

  function ConfigRest(c: Config, b: Bus): seq<Event> {
    var b7 := WithReceiver(c, b).(csdef := OnBus(c, 0).csdef);
    var b9 := b7.(frameLen := FRAME_LEN_8);
    var b10 := b9.(csid := c.csid);
    [Write(WithReceiver(c, b)), Write(b7)]
    + (if b.frameLen == FRAME_LEN_8 then [] else [Write(b7.(frameLen := 0)), Write(b9)])
    + [Write(b10), Write(b10)]
  }

  /** Configuration, and the select held. */
  function ConfigEnd(c: Config, b: Bus): seq<Event> {
    ConfigRest(c, b) + [Write(Released(OnBus(c, FirstProto(c)))), Write(OnBus(c, FirstProto(c)))]
  }

  function ConfigWrites(c: Config, b: Bus): seq<Event> { ConfigStart(c, b) + ConfigEnd(c, b) }

  /** A whole transfer, finished or timed out after n bytes. */
  function Program(c: Config, b: Bus, stream: seq<nat>, n: nat, timedOut: bool): seq<Event>
    requires n <= |stream| && (timedOut ==> n < |stream|)
  {
    ConfigWrites(c, b) + Bytes(c, stream, n) + End(c, stream, n, timedOut)
  }

  lemma ConfigEffect(c: Config, m: Machine, log: seq<Event>)
    requires Ok(m) && Legal(m, log) && DriverPart(log) == ConfigWrites(c, m.bus)
    ensures var t := Run(m, log);
            && Ok(t) && t.stored == m.stored && t.taken == m.taken && t.bus == Prior(c, 0)
            && m.wire <= t.wire && m.replies <= t.replies
  {
    hide FirstProto;
    LogEffect(m, log);
    OnlyWrites(ConfigWrites(c, m.bus));
  }

  lemma SwitchBus(c: Config, i: nat)
    ensures BusAfter(Prior(c, i), Switch(c, i)) == BusAt(c, i)
    ensures forall e :: e in Switch(c, i) ==> e.Write?
    ensures forall x :: Seen(Prior(c, i), Switch(c, i), x) ==> x in {Prior(c, i), BusAt(c, i)}
  {
    hide ProtoBits;
  }

  lemma SwitchEffect(c: Config, m: Machine, log: seq<Event>, i: nat)
    requires Ok(m) && Legal(m, log) && DriverPart(log) == Switch(c, i) && m.bus == Prior(c, i)
    ensures var t := Run(m, log);
            && Ok(t) && t.stored == m.stored && t.taken == m.taken && t.bus == BusAt(c, i)
            && m.wire <= t.wire && m.replies <= t.replies
            && forall j :: |m.wire| <= j < |t.wire| ==> t.wire[j].bus in {Prior(c, i), BusAt(c, i)}
  {
    hide Prior, BusAt, Switch, Ok, BusAfter, Seen;
    LogEffect(m, log);
    SwitchBus(c, i);
    OnlyWrites(Switch(c, i));
  }

  /** One byte exchanged: whatever leaves in the meantime does so on the bus of this byte or the one before,
      and the byte itself, if it does, on its own. */
  lemma ByteEffect(c: Config, stream: seq<nat>, m: Machine, log: seq<Event>, i: nat)
    requires Ok(m) && Legal(m, log) && i < |stream| && m.bus == Prior(c, i)
    requires DriverPart(log) == Switch(c, i) + [Store(stream[i]), Take]
    ensures var t := Run(m, log);
            && Ok(t) && t.stored == m.stored + [stream[i]] && t.taken == m.taken + 1 && t.bus == BusAt(c, i)
            && m.wire <= t.wire && m.replies <= t.replies
            && (forall j :: |m.wire| <= j < |t.wire| ==> t.wire[j].bus in {Prior(c, i), BusAt(c, i)})
            && (|m.stored| < |t.wire| ==> t.wire[|m.stored|].bus == BusAt(c, i))
  {
    hide Prior, BusAt, Switch, Ok, Run, Legal, DriverPart, Stores, Takes, BusAfter;
    var q := [Store(stream[i]), Take];
    var l1, l2 := Cut(log, Switch(c, i), q);
    Concat(m, l1, l2);
    SwitchEffect(c, m, l1, i);
    LogEffect(Run(m, l1), l2);
    StoreTake(stream[i], BusAt(c, i));
    WireFits(Run(m, l1));
  }

  lemma WireFits(m: Machine)
    requires Ok(m)
    ensures m.taken <= |m.wire| <= |m.stored| && |m.replies| == |m.wire|
  {
  }

  lemma StoreTake(b: nat, bus: Bus)
    ensures var q := [Store(b), Take]; Stores(q) == [b] && Takes(q) == 1 && BusAfter(bus, q) == bus
  {
    var q := [Store(b), Take];
    assert q[..1] == [Store(b)] && q[..1][..0] == [];
    assert Stores([Store(b)]) == [b] && Takes([Store(b)]) == 0 && BusAfter(bus, [Store(b)]) == bus;
  }

  /** The bus is that of byte k or of one of the d bytes after it, before byte n. */
  ghost predicate Timely(c: Config, k: nat, d: nat, n: nat, b: Bus) {
    exists i: nat :: k <= i <= k + d && i < n && b == BusAt(c, i)
  }

  /** From when n bytes have been exchanged, byte k, if it is out, left on the bus of a byte from k to k + d,
      d being the number of replies owed at the start. */
  ghost predicate InFlight(c: Config, m: Machine, t: Machine, n: nat)
    requires Ok(m)
  {
    forall j :: |m.stored| <= j < |t.wire| && j < |m.stored| + n ==>
      Timely(c, j - |m.stored|, Owed(m), n, t.wire[j].bus)
  }

  lemma {:induction false} BytesEffect(c: Config, stream: seq<nat>, m: Machine, log: seq<Event>, n: nat)
    requires Ok(m) && Legal(m, log) && n <= |stream| && m.bus == Prior(c, 0) && DriverPart(log) == Bytes(c, stream, n)
    ensures var t := Run(m, log);
            && Ok(t) && t.stored == m.stored + stream[..n] && t.taken == m.taken + n && t.bus == Prior(c, n)
            && m.wire <= t.wire && m.replies <= t.replies && InFlight(c, m, t, n)
    decreases n
  {
    hide BusAt, Switch, Run, Legal, DriverPart;
    if n == 0 {
      LogEffect(m, log);
    } else {
      var l1, l2 := Cut(log, Bytes(c, stream, n - 1), Switch(c, n - 1) + [Store(stream[n - 1]), Take]);
      Concat(m, l1, l2);
      BytesEffect(c, stream, m, l1, n - 1);
      ByteEffect(c, stream, Run(m, l1), l2, n - 1);
      StillInFlight(c, m, Run(m, l1), Run(m, log), n - 1);
      assert stream[..n] == stream[..n - 1] + [stream[n - 1]];
    }
  }

  lemma StillInFlight(c: Config, m: Machine, t: Machine, u: Machine, n: nat)
    requires Ok(m) && Ok(t) && |t.stored| == |m.stored| + n && t.taken == m.taken + n && InFlight(c, m, t, n)
    requires t.wire <= u.wire
    requires forall j :: |t.wire| <= j < |u.wire| ==> u.wire[j].bus in {Prior(c, n), BusAt(c, n)}
    requires |t.stored| < |u.wire| ==> u.wire[|t.stored|].bus == BusAt(c, n)
    ensures InFlight(c, m, u, n + 1)
  {
    hide BusAt, Timely;
    forall j | |m.stored| <= j < |u.wire| && j < |m.stored| + n + 1
      ensures Timely(c, j - |m.stored|, Owed(m), n + 1, u.wire[j].bus)
    {
      var k := j - |m.stored|;
      if j < |t.wire| {
        TimelyLonger(c, k, Owed(m), n, t.wire[j].bus);
        assert u.wire[j] == t.wire[j];
      } else if u.wire[j].bus == BusAt(c, n) {
        TimelyAt(c, k, Owed(m), n + 1, n);
      } else {
        TimelyAt(c, k, Owed(m), n + 1, n - 1);
      }
    }
  }

  lemma TimelyAt(c: Config, k: nat, d: nat, n: nat, i: nat)
    requires k <= i <= k + d && i < n
    ensures Timely(c, k, d, n, BusAt(c, i))
  {
  }

  lemma TimelyLonger(c: Config, k: nat, d: nat, n: nat, b: Bus)
    requires Timely(c, k, d, n, b)
    ensures Timely(c, k, d, n + 1, b)
  {
  }

  // ---------------------------------------------------------------- whole transfers

  /** Where byte k of a transfer may be found on the wire, n bytes having been exchanged: on the bus of a byte
      from k to k + d, or, if n is at most k + d, on the last one after its release. */
  ghost predicate Allowed(c: Config, k: nat, d: nat, n: nat, b: Bus) {
    Timely(c, k, d, n + 1, b) || (n <= k + d && b == Released(BusAt(c, n)))
  }

  /** What holds after every run of a transfer that starts with d replies owed: the bytes stored and the
      replies taken, a byte for which d more were exchanged is out, and each byte that is out left on a bus
      that is allowed. */
  ghost predicate Transferred(c: Config, stream: seq<nat>, m: Machine, t: Machine, n: nat, timedOut: bool)
    requires Ok(m) && n <= |stream| && (timedOut ==> n < |stream|)
  {
    var sent := if timedOut then n + 1 else n;
    && Ok(t) && t.stored == m.stored + stream[..sent] && t.taken == m.taken + n
    && m.wire <= t.wire && m.replies <= t.replies && t.bus == Released(BusAt(c, n))
    && |m.stored| + n <= |t.wire| + Owed(m)
    && forall j :: |m.stored| <= j < |t.wire| ==> Allowed(c, j - |m.stored|, Owed(m), n, t.wire[j].bus)
  }

  lemma ProgramParts(c: Config, b: Bus, stream: seq<nat>, n: nat, timedOut: bool)
    requires n <= |stream| && (timedOut ==> n < |stream|)
    ensures Program(c, b, stream, n, timedOut)
            == ConfigWrites(c, b) + (Bytes(c, stream, n) + End(c, stream, n, timedOut))
  {
  }

  /** Any interleaving of driver and controller is covered. */
  lemma EveryTransfer(c: Config, stream: seq<nat>, m: Machine, log: seq<Event>, n: nat, timedOut: bool)
    requires n <= |stream| && (timedOut ==> n < |stream|)
    requires Ok(m) && Legal(m, log) && DriverPart(log) == Program(c, m.bus, stream, n, timedOut)
    ensures Transferred(c, stream, m, Run(m, log), n, timedOut)
  {
    hide BusAt, Ok, Prior, ConfigWrites, Bytes, End, Program, InFlight;
    ProgramParts(c, m.bus, stream, n, timedOut);
    var l1, l23 := Cut(log, ConfigWrites(c, m.bus), Bytes(c, stream, n) + End(c, stream, n, timedOut));
    var l2, l3 := Cut(l23, Bytes(c, stream, n), End(c, stream, n, timedOut));
    Concat(m, l1, l23);
    Concat(Run(m, l1), l2, l3);
    var m1 := Run(m, l1);
    ConfigEffect(c, m, l1);
    BytesEffect(c, stream, m1, l2, n);
    EndEffect(c, stream, Run(m1, l2), l3, n, timedOut);
    AllAllowed(c, stream, m, m1, Run(m1, l2), Run(m, log), n, timedOut);
  }

  lemma EndEffect(c: Config, stream: seq<nat>, m: Machine, log: seq<Event>, n: nat, timedOut: bool)
    requires n <= |stream| && (timedOut ==> n < |stream|)
    requires Ok(m) && Legal(m, log) && m.bus == Prior(c, n) && DriverPart(log) == End(c, stream, n, timedOut)
    ensures var t := Run(m, log);
            && Ok(t) && t.stored == m.stored + (if timedOut then [stream[n]] else []) && t.taken == m.taken
            && t.bus == Released(BusAt(c, n)) && m.wire <= t.wire && m.replies <= t.replies
            && (forall j :: |m.wire| <= j < |t.wire| ==>
                  t.wire[j].bus in {Prior(c, n), BusAt(c, n), Released(BusAt(c, n))})
            && (forall j :: |m.stored| <= j < |t.wire| ==> t.wire[j].bus in {BusAt(c, n), Released(BusAt(c, n))})
  {
    hide Prior, BusAt, Released, Switch, Ok, Run, Legal, DriverPart, Stores, Takes, BusAfter;
    var r := Released(BusAt(c, n));
    var q := if timedOut then [Store(stream[n]), Miss, Write(r)] else [Write(r)];
    var l1, l2 := Cut(log, Switch(c, n), q);
    Concat(m, l1, l2);
    SwitchEffect(c, m, l1, n);
    LogEffect(Run(m, l1), l2);
    StoreWrite(if timedOut then stream[n] else 0, BusAt(c, n), r);
    WireFits(Run(m, l1));
  }

  lemma StoreWrite(b: nat, bus: Bus, r: Bus)
    ensures Stores([Store(b), Miss, Write(r)]) == [b] && Takes([Store(b), Miss, Write(r)]) == 0
    ensures Stores([Write(r)]) == [] && Takes([Write(r)]) == 0
    ensures BusAfter(bus, [Store(b), Miss, Write(r)]) == BusAfter(bus, [Write(r)]) == r
  {
    var q := [Store(b), Miss, Write(r)];
    assert q[..2] == [Store(b), Miss] && [Store(b), Miss][..1] == [Store(b)] && [Store(b)][..0] == [];
    assert Stores([Store(b)]) == [b] && Takes([Store(b)]) == 0;
    assert Stores([Store(b), Miss]) == [b] && Takes([Store(b), Miss]) == 0;
    assert [Write(r)][..0] == [];
  }

  lemma AllAllowed(c: Config, stream: seq<nat>, m: Machine, m1: Machine, u: Machine, t: Machine, n: nat, timedOut: bool)
    requires n <= |stream| && (timedOut ==> n < |stream|)
    requires Ok(m) && Ok(m1) && m1.stored == m.stored && m1.taken == m.taken
    requires m.wire <= m1.wire && m.replies <= m1.replies
    requires Ok(u) && u.stored == m1.stored + stream[..n] && u.taken == m1.taken + n
    requires m1.wire <= u.wire && m1.replies <= u.replies && InFlight(c, m1, u, n)
    requires Ok(t) && t.stored == u.stored + (if timedOut then [stream[n]] else []) && t.taken == u.taken
    requires t.bus == Released(BusAt(c, n)) && u.wire <= t.wire && u.replies <= t.replies
    requires forall j :: |u.wire| <= j < |t.wire| ==> t.wire[j].bus in {Prior(c, n), BusAt(c, n), Released(BusAt(c, n))}
    requires forall j :: |u.stored| <= j < |t.wire| ==> t.wire[j].bus in {BusAt(c, n), Released(BusAt(c, n))}
    ensures Transferred(c, stream, m, t, n, timedOut)
  {
    hide BusAt, Timely, Released;
    forall j | |m.stored| <= j < |t.wire| ensures Allowed(c, j - |m.stored|, Owed(m), n, t.wire[j].bus) {
      var k := j - |m.stored|;
      if j < |u.wire| {
        assert t.wire[j] == u.wire[j];
        TimelyLonger(c, k, Owed(m), n, u.wire[j].bus);
      } else if t.wire[j].bus == BusAt(c, n) {
        TimelyAt(c, k, Owed(m), n + 1, n);
      } else if t.wire[j].bus != Released(BusAt(c, n)) {
        TimelyAt(c, k, Owed(m), n + 1, n - 1);
      }
    }
    assert timedOut ==> stream[..n + 1] == stream[..n] + [stream[n]];
    assert t.stored == m.stored + stream[..if timedOut then n + 1 else n];
  }

  /** The frames of a transfer as it should be. */
  ghost function FramesTo(c: Config, stream: seq<nat>, n: nat): seq<Frame>
    requires n <= |stream|
  {
    seq(n, k requires 0 <= k < n => Frame(stream[k], BusAt(c, k)))
  }

  /** If no reply is owed at the start, every byte exchanged is on the wire in its place and on its bus, with
      the select held.  A finished transfer leaves nothing owed; after a time-out, the last byte may be out
      or may leave after the release. */
  lemma CleanTransfer(c: Config, stream: seq<nat>, m: Machine, t: Machine, n: nat, timedOut: bool)
    requires n <= |stream| && (timedOut ==> n < |stream|)
    requires Ok(m) && Owed(m) == 0 && Transferred(c, stream, m, t, n, timedOut)
    ensures m.wire + FramesTo(c, stream, n) <= t.wire
    ensures !timedOut ==> t.wire == m.wire + FramesTo(c, stream, n) && Owed(t) == 0
    ensures timedOut ==> Owed(t) == 1
  {
    hide BusAt, Released;
    assert |m.wire| == |m.stored|;
    forall k | 0 <= k < n ensures t.wire[|m.stored| + k] == Frame(stream[k], BusAt(c, k)) {
      var j := |m.stored| + k;
      assert Allowed(c, j - |m.stored|, 0, n, t.wire[j].bus);
      assert t.wire[j].data == t.stored[j];
    }
    assert m.wire + FramesTo(c, stream, n) == t.wire[..|m.stored| + n];
  }

  // ---------------------------------------------------------------- the latest possible run

  function Shifts(n: nat): seq<Event> { seq(n, _ => Shift(0)) }

  /** The controller shifts n queued bytes out, all on the bus of the moment. */
  lemma {:induction false} ShiftsEffect(m: Machine, n: nat)
    requires Ok(m) && |m.wire| + n <= |m.stored|
    ensures var t := Run(m, Shifts(n));
            && Legal(m, Shifts(n)) && DriverPart(Shifts(n)) == []
            && Ok(t) && t == m.(wire := t.wire, replies := t.replies) && |t.wire| == |m.wire| + n && m.wire <= t.wire
            && forall j :: |m.wire| <= j < |t.wire| ==> t.wire[j].bus == m.bus
  {
    hide Ok, Step, Run, Legal, DriverPart;
    if n == 0 {
      assert Shifts(n) == [];
      NoEvents(m);
    } else {
      ShiftsEffect(m, n - 1);
      assert Shifts(n) == Shifts(n - 1) + [Shift(0)];
      Append(m, Shifts(n - 1), Shift(0));
      StepEffect(Run(m, Shifts(n - 1)), Shift(0));
    }
  }

  /** Register writes that all leave the receiver off, or all on. */
  ghost predicate PlainWrites(p: seq<Event>, rxOff: bool) {
    forall e :: e in p ==> e.Write? && e.bus.rxOff == rxOff
  }

  /** Writes, and no byte leaving in between. */
  lemma {:induction false} WritesRun(m: Machine, p: seq<Event>, rxOff: bool)
    requires PlainWrites(p, rxOff) && (rxOff ==> m.bus.rxOff)
    ensures Legal(m, p) && DriverPart(p) == p && Run(m, p) == m.(bus := BusAfter(m.bus, p))
    ensures rxOff ==> BusAfter(m.bus, p).rxOff
  {
    if p != [] {
      var k := |p| - 1;
      assert p[k] in p;
      WritesRun(m, p[..k], rxOff);
      assert p == p[..k] + [p[k]];
    }
  }

  /** The byte loop with the controller as late as it can be: it shifts a byte out only for a driver that waits,
      and so, with r replies waiting at the start, none before the r-th and then one at a time. */
  function LateByte(c: Config, b: nat, shift: bool, i: nat): seq<Event> {
    Switch(c, i) + (if shift then [Store(b), Shift(0), Take] else [Store(b), Take])
  }

  function LateBytes(c: Config, stream: seq<nat>, r: nat, n: nat): seq<Event>
    requires n <= |stream|
  {
    if n == 0 then [] else LateBytes(c, stream, r, n - 1) + LateByte(c, stream[n - 1], r <= n - 1, n - 1)
  }

  lemma SwitchIsPlain(c: Config, i: nat)
    ensures PlainWrites(Switch(c, i), false)
  {
  }

  lemma LateByteRun(c: Config, m: Machine, b: nat, shift: bool, i: nat)
    requires Ok(m) && m.bus == Prior(c, i) && m.taken < |m.wire| + (if shift then 1 else 0)
    requires shift ==> |m.wire| <= |m.stored|
    ensures var l, t := LateByte(c, b, shift, i), Run(m, LateByte(c, b, shift, i));
            && Legal(m, l) && DriverPart(l) == Switch(c, i) + [Store(b), Take]
            && t.wire == m.wire + (if shift then [Frame((m.stored + [b])[|m.wire|], BusAt(c, i))] else [])
  {
    hide Prior, Switch, ProtoAt;
    SwitchIsPlain(c, i);
    SwitchBus(c, i);
    WritesRun(m, Switch(c, i), false);
    var u := m.(bus := BusAt(c, i));
    var tail := if shift then [Store(b), Shift(0), Take] else [Store(b), Take];
    StoreShiftTake(u, b, shift);
    Concat(m, Switch(c, i), tail);
  }

  lemma StoreShiftTake(m: Machine, b: nat, shift: bool)
    requires Ok(m) && !m.bus.rxOff && m.taken < |m.wire| + (if shift then 1 else 0)
    ensures var tail := if shift then [Store(b), Shift(0), Take] else [Store(b), Take];
            && Legal(m, tail) && DriverPart(tail) == [Store(b), Take]
            && Run(m, tail).wire == m.wire + (if shift then [Frame((m.stored + [b])[|m.wire|], m.bus)] else [])
  {
    hide Ok, Run, Legal, DriverPart;
    WireFits(m);
    NoEvents(m);
    Append(m, [], Store(b));
    assert [] + [Store(b)] == [Store(b)];
    if shift {
      Append(m, [Store(b)], Shift(0));
      Append(m, [Store(b), Shift(0)], Take);
      assert [Store(b)] + [Shift(0)] == [Store(b), Shift(0)];
      assert [Store(b)] + [Shift(0)] + [Take] == [Store(b), Shift(0), Take];
    } else {
      Append(m, [Store(b)], Take);
      assert [Store(b)] + [Take] == [Store(b), Take];
    }
  }

  function Waiting(m: Machine): nat
    requires Ok(m)
  {
    |m.replies| - m.taken
  }

  lemma {:induction false} LateBytesRun(c: Config, stream: seq<nat>, m: Machine, n: nat)
    requires Ok(m) && m.bus == Prior(c, 0) && n <= |stream|
    ensures var r, l := Waiting(m), LateBytes(c, stream, Waiting(m), n);
            var t := Run(m, l);
            && Legal(m, l) && DriverPart(l) == Bytes(c, stream, n)
            && m.wire <= t.wire && |t.wire| == |m.wire| + (if r <= n then n - r else 0)
            && forall j :: |m.wire| <= j < |t.wire| ==> t.wire[j].bus == BusAt(c, j - m.taken)
    decreases n
  {
    hide Switch, BusAt, Prior, Ok, Run, Legal, DriverPart, LateByte;
    WireFits(m);
    if n == 0 {
      NoEvents(m);
    } else {
      var r, i := Waiting(m), n - 1;
      var l := LateBytes(c, stream, r, i);
      var u := Run(m, l);
      LateBytesRun(c, stream, m, i);
      BytesEffect(c, stream, m, l, i);
      WireFits(u);
      LateByteRun(c, u, stream[i], r <= i, i);
      Concat(m, l, LateByte(c, stream[i], r <= i, i));
    }
  }

  /** The whole transfer as late as it can be: byte number j leaves while byte j - taken is exchanged, or after
      the release.  It can time out where no more replies are waiting than bytes have been exchanged. */
  lemma LateTransfer(c: Config, stream: seq<nat>, m: Machine, n: nat, timedOut: bool) returns (log: seq<Event>)
    requires n <= |stream| && (timedOut ==> n < |stream|)
    requires Ok(m) && (timedOut ==> Waiting(m) <= n)
    ensures Legal(m, log) && DriverPart(log) == Program(c, m.bus, stream, n, timedOut)
    ensures var t, sent := Run(m, log), if timedOut then n + 1 else n;
            && |t.wire| == |m.stored| + sent
            && forall j :: |m.stored| <= j < |t.wire| ==>
                 t.wire[j].bus == if j - m.taken < n then BusAt(c, j - m.taken) else Released(BusAt(c, n))
  {
    hide BusAt, Released, Prior, Ok, Run, Legal, DriverPart, Bytes, ConfigWrites, LateBytes, Shifts, FirstProto;
    WireFits(m);
    ConfigRun(c, m);
    var m1 := Run(m, ConfigWrites(c, m.bus));
    var l2 := LateBytes(c, stream, Waiting(m), n);
    LateBytesRun(c, stream, m1, n);
    BytesEffect(c, stream, m1, l2, n);
    Concat(m, ConfigWrites(c, m.bus), l2);
    var m2 := Run(m1, l2);
    WireFits(m2);
    EndRun(c, stream, m2, n, timedOut);
    Concat(m, ConfigWrites(c, m.bus) + l2, End(c, stream, n, timedOut));
    var m3 := Run(m2, End(c, stream, n, timedOut));
    WireFits(m3);
    var rest := |m3.stored| - |m3.wire|;
    ShiftsEffect(m3, rest);
    log := ConfigWrites(c, m.bus) + l2 + End(c, stream, n, timedOut) + Shifts(rest);
    Concat(m, ConfigWrites(c, m.bus) + l2 + End(c, stream, n, timedOut), Shifts(rest));
    NoneAfter(Program(c, m.bus, stream, n, timedOut));
  }

  lemma NoneAfter(p: seq<Event>)
    ensures p + [] == p
  {
  }

  lemma ConfigShape(c: Config, b: Bus)
    ensures var l := ConfigWrites(c, b);
            && |l| > 5 && PlainWrites(l[..5], b.rxOff) && PlainWrites(l[5..], false)
            && l[|l| - 1] == Write(Prior(c, 0))
  {
    hide FirstProto, PlainWrites;
    StartIsPlain(c, b);
    EndIsPlain(c, b);
    assert ConfigWrites(c, b)[..5] == ConfigStart(c, b) && ConfigWrites(c, b)[5..] == ConfigEnd(c, b);
  }

  lemma StartIsPlain(c: Config, b: Bus)
    ensures PlainWrites(ConfigStart(c, b), b.rxOff)
  {
    hide FirstProto;
  }

  lemma EndIsPlain(c: Config, b: Bus)
    ensures PlainWrites(ConfigEnd(c, b), false)
  {
    hide FirstProto;
  }

  lemma ConfigRun(c: Config, m: Machine)
    requires Ok(m)
    ensures var l := ConfigWrites(c, m.bus);
            Legal(m, l) && DriverPart(l) == l && Run(m, l) == m.(bus := Prior(c, 0)) && Ok(Run(m, l))
  {
    hide FirstProto, ConfigWrites, PlainWrites, Run, Legal, DriverPart;
    var l := ConfigWrites(c, m.bus);
    ConfigShape(c, m.bus);
    WritesRun(m, l[..5], m.bus.rxOff);
    WritesRun(Run(m, l[..5]), l[5..], false);
    assert l == l[..5] + l[5..];
    Concat(m, l[..5], l[5..]);
    LastWrite(Run(m, l[..5]).bus, l[5..]);
  }

  lemma LastWrite(b: Bus, p: seq<Event>)
    requires p != [] && p[|p| - 1].Write?
    ensures BusAfter(b, p) == p[|p| - 1].bus
  {
  }

  lemma EndRun(c: Config, stream: seq<nat>, m: Machine, n: nat, timedOut: bool)
    requires n <= |stream| && (timedOut ==> n < |stream|) && Ok(m) && m.bus == Prior(c, n)
    requires timedOut ==> Waiting(m) == 0
    ensures var l := End(c, stream, n, timedOut);
            && Legal(m, l) && DriverPart(l) == l
            && Run(m, l) == m.(bus := Released(BusAt(c, n)), stored := m.stored + if timedOut then [stream[n]] else [])
            && Ok(Run(m, l))
  {
    hide Prior, Switch, ProtoAt, Run, Legal, DriverPart;
    SwitchIsPlain(c, n);
    SwitchBus(c, n);
    WritesRun(m, Switch(c, n), false);
    NoEvents(m.(bus := BusAt(c, n)));
    var u := m.(bus := BusAt(c, n));
    var r := Released(BusAt(c, n));
    var tail := if timedOut then [Store(stream[n]), Miss, Write(r)] else [Write(r)];
    Concat(m, Switch(c, n), tail);
    Append(u, [], tail[0]);
    assert [] + [tail[0]] == [tail[0]];
    if timedOut {
      Append(u, [Store(stream[n])], Miss);
      Append(u, [Store(stream[n])] + [Miss], Write(r));
      assert [Store(stream[n])] + [Miss] + [Write(r)] == tail;
    }
  }

  // ---------------------------------------------------------------- which bytes are safe

  /** However driver and controller interleave, byte k of the transfer leaves before its end, on its bus. */
  ghost predicate ByteIsRight(c: Config, stream: seq<nat>, m: Machine, n: nat, timedOut: bool, k: nat)
    requires n <= |stream| && (timedOut ==> n < |stream|) && k < |stream|
  {
    forall log: seq<Event> ::
      Legal(m, log) && DriverPart(log) == Program(c, m.bus, stream, n, timedOut) ==>
        var t := Run(m, log);
        |m.stored| + k < |t.wire| && t.wire[|m.stored| + k] == Frame(stream[k], BusAt(c, k))
  }

  /** With d replies owed, the bytes that are right in every run are those for which d more were exchanged
      and none of these on other wires.  Every other byte can go out on the wrong wires, or after the
      release of the select. */
  lemma ByteIsRightIff(c: Config, stream: seq<nat>, m: Machine, n: nat, timedOut: bool, k: nat)
    requires n <= |stream| && (timedOut ==> n < |stream|)
    requires Ok(m) && (timedOut ==> Waiting(m) <= n) && k < (if timedOut then n + 1 else n)
    ensures ByteIsRight(c, stream, m, n, timedOut, k) <==> k + Owed(m) < n && ProtoAt(c, k) == ProtoAt(c, k + Owed(m))
  {
    hide Ok, Program, Run, Legal, DriverPart, ProtoAt, Transferred;
    WireFits(m);
    var d := Owed(m);
    if k + d < n && ProtoAt(c, k) == ProtoAt(c, k + d) {
      forall log: seq<Event> | Legal(m, log) && DriverPart(log) == Program(c, m.bus, stream, n, timedOut)
        ensures |m.stored| + k < |Run(m, log).wire| && Run(m, log).wire[|m.stored| + k] == Frame(stream[k], BusAt(c, k))
      {
        EveryTransfer(c, stream, m, log, n, timedOut);
        SameWires(c, stream, m, Run(m, log), n, timedOut, k);
      }
    }
    if ByteIsRight(c, stream, m, n, timedOut, k) {
      var log := LateTransfer(c, stream, m, n, timedOut);
      var t := Run(m, log);
      assert t.wire[|m.stored| + k].bus == BusAt(c, k);
    }
  }

  lemma SameWires(c: Config, stream: seq<nat>, m: Machine, t: Machine, n: nat, timedOut: bool, k: nat)
    requires n <= |stream| && (timedOut ==> n < |stream|)
    requires Ok(m) && Transferred(c, stream, m, t, n, timedOut)
    requires k + Owed(m) < n && ProtoAt(c, k) == ProtoAt(c, k + Owed(m))
    ensures |m.stored| + k < |t.wire| && t.wire[|m.stored| + k] == Frame(stream[k], BusAt(c, k))
  {
    hide ProtoAt;
    var d, j := Owed(m), |m.stored| + k;
    assert Allowed(c, j - |m.stored|, d, n, t.wire[j].bus);
    var i: nat :| k <= i <= k + d && i < n + 1 && t.wire[j].bus == BusAt(c, i);
    ProtoIsMonotone(c, k, i, k + d);
    assert t.wire[j].data == t.stored[j];
  }

  /** The wires change at most once. */
  lemma ProtoIsMonotone(c: Config, k: nat, i: nat, j: nat)
    requires k <= i <= j && ProtoAt(c, k) == ProtoAt(c, j)
    ensures ProtoAt(c, i) == ProtoAt(c, k)
  {
    hide ProtoBits;
  }

  /** A finished transfer of any bytes at all is right in every run if and only if no reply was owed when it
      began. */
  lemma TransferIsRightIff(c: Config, stream: seq<nat>, m: Machine)
    requires Ok(m) && stream != []
    ensures (forall k: nat :: k < |stream| ==> ByteIsRight(c, stream, m, |stream|, false, k)) <==> Owed(m) == 0
  {
    hide ByteIsRight, ProtoAt, Ok;
    WireFits(m);
    if Owed(m) == 0 {
      forall k: nat | k < |stream| ensures ByteIsRight(c, stream, m, |stream|, false, k) {
        ByteIsRightIff(c, stream, m, |stream|, false, k);
      }
    } else {
      ByteIsRightIff(c, stream, m, |stream|, false, |stream| - 1);
    }
  }

  /** One stale reply is enough: a command byte stored under single leaves under quad, and the last byte
      after the release. */
  lemma StaleReplyExample(c: Config, m: Machine) returns (log: seq<Event>)
    requires c == Config(2, false, false, false, false, 0, 1, 0, 0, DataOnly)
    requires Ok(m) && Owed(m) == 1
    ensures Legal(m, log) && DriverPart(log) == Program(c, m.bus, [0x9F, 0], 2, false)
    ensures var t, j := Run(m, log), |m.stored|;
            && |t.wire| == j + 2 && BusAt(c, 0).proto == 0 && BusAt(c, 1).proto == 2
            && t.wire[j].bus == BusAt(c, 1) && t.wire[j + 1].bus == Released(BusAt(c, 2))
  {
    hide Run, Legal, DriverPart, Program, Ok;
    WireFits(m);
    log := LateTransfer(c, [0x9F, 0], m, 2, false);
  }

  // ---------------------------------------------------------------- runs of transfers

  /** A call that is refused for its protocol, or a transfer that gets n bytes through. */
  datatype Call = Refused | Transfer(c: Config, stream: seq<nat>, n: nat, timedOut: bool)

  /** The log is one of this call. */
  ghost predicate IsCall(m: Machine, call: Call, log: seq<Event>) {
    && Legal(m, log)
    && match call
       case Refused => DriverPart(log) == [Write(m.bus.(proto := 0))]
       case Transfer(c, stream, n, timedOut) =>
         && (if timedOut then n < |stream| else n == |stream|)
         && DriverPart(log) == Program(c, m.bus, stream, n, timedOut)
  }

  /** The machine after the first k calls. */
  ghost function After(m: Machine, logs: seq<seq<Event>>, k: nat): Machine
    requires k <= |logs|
  {
    if k == 0 then m else Run(After(m, logs, k - 1), logs[k - 1])
  }

  ghost predicate Session(m: Machine, calls: seq<Call>, logs: seq<seq<Event>>) {
    |calls| == |logs| && forall k :: 0 <= k < |calls| ==> IsCall(After(m, logs, k), calls[k], logs[k])
  }

  /** How many of the first k calls returned 1. */
  ghost function TimeOuts(calls: seq<Call>, k: nat): nat
    requires k <= |calls|
  {
    if k == 0 then 0
    else TimeOuts(calls, k - 1) + if calls[k - 1].Transfer? && calls[k - 1].timedOut then 1 else 0
  }

  /** Each time-out adds one to the replies owed, and nothing ever takes one away. */
  lemma {:induction false} OwedCount(m: Machine, calls: seq<Call>, logs: seq<seq<Event>>, k: nat)
    requires Ok(m) && Session(m, calls, logs) && k <= |calls|
    ensures Ok(After(m, logs, k)) && Owed(After(m, logs, k)) == Owed(m) + TimeOuts(calls, k)
  {
    hide Run, Legal, DriverPart, Program, BusAt;
    if k > 0 {
      OwedCount(m, calls, logs, k - 1);
      var u := After(m, logs, k - 1);
      assert IsCall(u, calls[k - 1], logs[k - 1]);
      match calls[k - 1]
      case Refused => RefusedEffect(u, logs[k - 1]);
      case Transfer(c, stream, n, timedOut) => EveryTransfer(c, stream, u, logs[k - 1], n, timedOut);
    }
  }

  lemma RefusedEffect(m: Machine, log: seq<Event>)
    requires Ok(m) && Legal(m, log) && DriverPart(log) == [Write(m.bus.(proto := 0))]
    ensures Ok(Run(m, log)) && Run(m, log).stored == m.stored && Run(m, log).taken == m.taken
  {
    LogEffect(m, log);
    OnlyWrites(DriverPart(log));
  }

  /** After any calls from an idle controller, a transfer of any bytes at all is right in every run if and only if
      none of them timed out. */
  lemma RightAfterSessionIff(m: Machine, calls: seq<Call>, logs: seq<seq<Event>>, c: Config, stream: seq<nat>)
    requires Ok(m) && Owed(m) == 0 && Session(m, calls, logs) && stream != []
    ensures (forall k: nat :: k < |stream| ==> ByteIsRight(c, stream, After(m, logs, |calls|), |stream|, false, k))
            <==> TimeOuts(calls, |calls|) == 0
  {
    hide ByteIsRight, IsCall;
    OwedCount(m, calls, logs, |calls|);
    TransferIsRightIff(c, stream, After(m, logs, |calls|));
  }

  /** After the same calls, the reply that a transfer takes for its byte i is the one to the byte stored as many
      bytes earlier as calls have timed out; so it is the one to byte i if and only if none has. */
  lemma RepliesAreLate(m: Machine, calls: seq<Call>, logs: seq<seq<Event>>, log: seq<Event>, call: Call, i: nat)
    requires Ok(m) && Owed(m) == 0 && Session(m, calls, logs)
    requires call.Transfer? && IsCall(After(m, logs, |calls|), call, log) && i < call.n
    ensures var u, t := After(m, logs, |calls|), Run(After(m, logs, |calls|), log);
            && u.taken + i < |t.replies| && u.taken + i + TimeOuts(calls, |calls|) == |u.stored| + i
            && (u.taken + i == |u.stored| + i <==> TimeOuts(calls, |calls|) == 0)
  {
    hide Run, Legal, DriverPart, Program;
    OwedCount(m, calls, logs, |calls|);
    EveryTransfer(call.c, call.stream, After(m, logs, |calls|), log, call.n, call.timedOut);
  }
}
