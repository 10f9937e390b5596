/**
 The SPI driver on the controller's registers.  Its methods add to the log what they do, and what the
 controller does in between; SpiTraffic says what that amounts to.
 */
module Spi {
  import opened SpiTraffic

  const PROTO_MASK: bv32 := 3
  const ENDIAN_LSB: bv32 := 4
  const DISABLE_RX: bv32 := 8
  const FRAME_LEN_MASK: bv32 := 0xF_0000
  const LEN_8: bv32 := 0x8_0000
  const SCKMODE_PHA: bv32 := 1
  const SCKMODE_POL: bv32 := 2
  const CSMODE_MASK: bv32 := 3
  const HOLD: bv32 := 2
  const RXDATA_TIMEOUT: nat := 1

  // ---------------------------------------------------------------- register fields

  /** The bus that the registers select. */
  function Selected(fmt: bv32, sckmode: bv32, csdef: nat, csid: nat, csmode: bv32): Bus {
    Bus((fmt & PROTO_MASK) as nat, fmt & ENDIAN_LSB != 0, fmt & DISABLE_RX != 0, (fmt & FRAME_LEN_MASK) as nat,
        sckmode & SCKMODE_POL != 0, sckmode & SCKMODE_PHA != 0, csid, csdef, (csmode & CSMODE_MASK) as nat)
  }

  function Without(reg: bv32, bits: bv32): bv32 { reg & !bits }
  function With(reg: bv32, bits: bv32): bv32 { reg | bits }

  function WithBit(reg: bv32, bit: bv32, on: bool): bv32 {
    if on then With(reg, bit) else Without(reg, bit)
  }

  lemma ProtoClear(fmt: bv32)
    ensures var cleared := Without(fmt, PROTO_MASK);
            && cleared & PROTO_MASK == 0 && cleared & ENDIAN_LSB == fmt & ENDIAN_LSB
            && cleared & DISABLE_RX == fmt & DISABLE_RX && cleared & FRAME_LEN_MASK == fmt & FRAME_LEN_MASK
  {
  }

  lemma ProtoField(fmt: bv32, sckmode: bv32, csdef: nat, csid: nat, csmode: bv32)
    ensures Selected(Without(fmt, PROTO_MASK), sckmode, csdef, csid, csmode)
            == Selected(fmt, sckmode, csdef, csid, csmode).(proto := 0)
  {
    hide Without;
    ProtoClear(fmt);
  }

  lemma ProtoOr(fmt: bv32, p: bv32)
    requires p <= 2 && fmt & PROTO_MASK == 0
    ensures With(fmt, p) & PROTO_MASK == p && With(fmt, p) & ENDIAN_LSB == fmt & ENDIAN_LSB
    ensures With(fmt, p) & DISABLE_RX == fmt & DISABLE_RX && With(fmt, p) & FRAME_LEN_MASK == fmt & FRAME_LEN_MASK
  {
  }

  lemma ProtoSet(fmt: bv32, p: bv32, sckmode: bv32, csdef: nat, csid: nat, csmode: bv32)
    requires p <= 2 && Selected(fmt, sckmode, csdef, csid, csmode).proto == 0
    ensures Selected(With(fmt, p), sckmode, csdef, csid, csmode)
            == Selected(fmt, sckmode, csdef, csid, csmode).(proto := p as nat)
  {
    hide With;
    ProtoOr(fmt, p);
  }

  lemma SckBits(w: bv32)
    ensures With(w, SCKMODE_POL) & SCKMODE_POL != 0 && Without(w, SCKMODE_POL) & SCKMODE_POL == 0
    ensures With(w, SCKMODE_POL) & SCKMODE_PHA == Without(w, SCKMODE_POL) & SCKMODE_PHA == w & SCKMODE_PHA
    ensures With(w, SCKMODE_PHA) & SCKMODE_PHA != 0 && Without(w, SCKMODE_PHA) & SCKMODE_PHA == 0
    ensures With(w, SCKMODE_PHA) & SCKMODE_POL == Without(w, SCKMODE_PHA) & SCKMODE_POL == w & SCKMODE_POL
  {
  }

  lemma SckFields(fmt: bv32, sckmode: bv32, on: bool, csdef: nat, csid: nat, csmode: bv32)
    ensures var b := Selected(fmt, sckmode, csdef, csid, csmode);
            && Selected(fmt, WithBit(sckmode, SCKMODE_POL, on), csdef, csid, csmode) == b.(polarity := on)
            && Selected(fmt, WithBit(sckmode, SCKMODE_PHA, on), csdef, csid, csmode) == b.(phase := on)
  {
    hide With, Without;
    SckBits(sckmode);
  }

  lemma OrderBits(w: bv32)
    ensures With(w, ENDIAN_LSB) & ENDIAN_LSB != 0 && Without(w, ENDIAN_LSB) & ENDIAN_LSB == 0
    ensures With(w, ENDIAN_LSB) & PROTO_MASK == Without(w, ENDIAN_LSB) & PROTO_MASK == w & PROTO_MASK
    ensures With(w, ENDIAN_LSB) & DISABLE_RX == Without(w, ENDIAN_LSB) & DISABLE_RX == w & DISABLE_RX
    ensures With(w, ENDIAN_LSB) & FRAME_LEN_MASK == Without(w, ENDIAN_LSB) & FRAME_LEN_MASK == w & FRAME_LEN_MASK
  {
  }

  lemma OrderField(fmt: bv32, on: bool, sckmode: bv32, csdef: nat, csid: nat, csmode: bv32)
    ensures Selected(WithBit(fmt, ENDIAN_LSB, on), sckmode, csdef, csid, csmode)
            == Selected(fmt, sckmode, csdef, csid, csmode).(lsbFirst := on)
  {
    hide With, Without;
    OrderBits(fmt);
  }

  lemma FrameBits(w: bv32)
    ensures Without(w, DISABLE_RX) & DISABLE_RX == 0 && Without(w, FRAME_LEN_MASK) & FRAME_LEN_MASK == 0
    ensures Without(w, DISABLE_RX) & PROTO_MASK == Without(w, FRAME_LEN_MASK) & PROTO_MASK == w & PROTO_MASK
    ensures Without(w, DISABLE_RX) & ENDIAN_LSB == Without(w, FRAME_LEN_MASK) & ENDIAN_LSB == w & ENDIAN_LSB
    ensures Without(w, DISABLE_RX) & FRAME_LEN_MASK == w & FRAME_LEN_MASK
    ensures Without(w, FRAME_LEN_MASK) & DISABLE_RX == w & DISABLE_RX
  {
  }

  lemma FrameFields(fmt: bv32, sckmode: bv32, csdef: nat, csid: nat, csmode: bv32)
    ensures var b := Selected(fmt, sckmode, csdef, csid, csmode);
            && Selected(Without(fmt, DISABLE_RX), sckmode, csdef, csid, csmode) == b.(rxOff := false)
            && Selected(Without(fmt, FRAME_LEN_MASK), sckmode, csdef, csid, csmode) == b.(frameLen := 0)
  {
    hide Without;
    FrameBits(fmt);
  }

  lemma LengthOr(fmt: bv32)
    requires fmt & FRAME_LEN_MASK == 0
    ensures With(fmt, LEN_8) & FRAME_LEN_MASK == LEN_8 && With(fmt, LEN_8) & ENDIAN_LSB == fmt & ENDIAN_LSB
    ensures With(fmt, LEN_8) & DISABLE_RX == fmt & DISABLE_RX && With(fmt, LEN_8) & PROTO_MASK == fmt & PROTO_MASK
  {
  }

  lemma LengthSet(fmt: bv32, sckmode: bv32, csdef: nat, csid: nat, csmode: bv32)
    requires Selected(fmt, sckmode, csdef, csid, csmode).frameLen == 0
    ensures Selected(With(fmt, LEN_8), sckmode, csdef, csid, csmode)
            == Selected(fmt, sckmode, csdef, csid, csmode).(frameLen := FRAME_LEN_8)
  {
    hide With;
    LengthOr(fmt);
  }

  lemma ModeBits(w: bv32)
    ensures Without(w, CSMODE_MASK) & CSMODE_MASK == 0
    ensures w & CSMODE_MASK == 0 ==> With(w, HOLD) & CSMODE_MASK == HOLD
  {
  }

  lemma ModeField(fmt: bv32, sckmode: bv32, csdef: nat, csid: nat, csmode: bv32)
    ensures var b := Selected(fmt, sckmode, csdef, csid, csmode);
            && Selected(fmt, sckmode, csdef, csid, Without(csmode, CSMODE_MASK)) == b.(csmode := CSMODE_AUTO)
            && (b.csmode == CSMODE_AUTO ==>
                  Selected(fmt, sckmode, csdef, csid, With(csmode, HOLD)) == b.(csmode := CSMODE_HOLD))
  {
    hide With, Without;
    ModeBits(csmode);
  }

  /** Is the frame length already right? */
  lemma LengthIs8(fmt: bv32, sckmode: bv32, csdef: nat, csid: nat, csmode: bv32)
    ensures Selected(fmt, sckmode, csdef, csid, csmode).frameLen == FRAME_LEN_8 <==> fmt & FRAME_LEN_MASK == LEN_8
  {
  }

  function ProtoCode(p: nat): bv32 {
    if p == 1 then 1 else if p == 2 then 2 else 0
  }

  lemma ProtoCodes(p: nat)
    requires p <= 2
    ensures ProtoCode(p) <= 2 && ProtoCode(p) as nat == p
  {
  }

  lemma Assoc(p: seq<Event>, q: seq<Event>, r: seq<Event>)
    ensures p + q + r == p + (q + r)
  {
  }

  // ---------------------------------------------------------------- the driver

  /** The byte stream of a transfer: the buffer's bytes, or zeros without a buffer. */
  ghost function Stream(tx: array?<nat>, n: nat): seq<nat>
    requires tx != null ==> n <= tx.Length
    reads if tx == null then {} else {tx}
  {
    if tx == null then seq(n, _ => 0) else tx[..n]
  }

  /** From position `from` on, the bytes still to be sent are in the transmit buffer. */
  ghost predicate Sends(tx: array?<nat>, stream: seq<nat>, from: nat)
    reads if tx == null then {} else {tx}
  {
    if tx == null then forall k :: from <= k < |stream| ==> stream[k] == 0
    else |stream| <= tx.Length && forall k :: from <= k < |stream| ==> tx[k] == stream[k]
  }

  lemma StreamSends(tx: array?<nat>, n: nat)
    requires tx != null ==> n <= tx.Length
    ensures |Stream(tx, n)| == n && Sends(tx, Stream(tx, n), 0)
  {
  }

  lemma NextByte(tx: array?<nat>, stream: seq<nat>, i: nat)
    requires Sends(tx, stream, i) && i < |stream|
    ensures if tx == null then stream[i] == 0 else i < tx.Length && tx[i] == stream[i]
  {
  }

  /** The first n replies from number `first` on are in the receive buffer, and the rest of it is as it was. */
  ghost predicate Received(rx: array?<nat>, rx0: seq<nat>, replies: seq<nat>, first: nat, n: nat)
    reads if rx == null then {} else {rx}
  {
    first + n <= |replies|
    && (rx != null ==> n <= rx.Length == |rx0| && rx[..] == replies[first..first + n] + rx0[n..])
  }

  lemma StillReceived(rx: array?<nat>, rx0: seq<nat>, replies: seq<nat>, more: seq<nat>, first: nat, n: nat)
    requires Received(rx, rx0, replies, first, n) && replies <= more
    ensures Received(rx, rx0, more, first, n)
  {
    assert more[first..first + n] == replies[first..first + n];
  }

  lemma StreamMeans(tx: array?<nat>, n: nat)
    requires tx != null ==> n <= tx.Length
    ensures |Stream(tx, n)| == n
    ensures forall k :: 0 <= k < n ==> Stream(tx, n)[k] == if tx == null then 0 else if k < tx.Length then tx[k] else 0
  {
  }

  lemma ReceivedMeans(rx: array?<nat>, rx0: seq<nat>, replies: seq<nat>, first: nat, n: nat)
    requires Received(rx, rx0, replies, first, n)
    ensures first + n <= |replies|
    ensures rx != null ==> n <= rx.Length == |rx0| && forall k :: 0 <= k < rx.Length ==>
              rx[k] == if k < n then replies[first + k] else rx0[k]
  {
    if rx != null {
      forall k | 0 <= k < rx.Length ensures rx[k] == if k < n then replies[first + k] else rx0[k] {
        assert rx[k] == rx[..][k];
      }
    }
  }

  lemma StoredMeans(c: Config, stream: seq<nat>, m: Machine, t: Machine, n: nat, timedOut: bool)
    requires n <= |stream| && (timedOut ==> n < |stream|) && Ok(m) && Transferred(c, stream, m, t, n, timedOut)
    ensures var sent := if timedOut then n + 1 else n;
            && m.stored <= t.stored && |t.stored| == |m.stored| + sent && t.taken == m.taken + n
            && forall j :: |m.stored| <= j < |t.stored| ==> t.stored[j] == stream[j - |m.stored|]
  {
  }

  lemma FramesMean(c: Config, stream: seq<nat>, before: seq<Frame>, after: seq<Frame>, n: nat)
    requires n <= |stream|
    ensures before + FramesTo(c, stream, n) <= after ==>
              && before <= after && |before| + n <= |after|
              && forall j :: |before| <= j < |before| + n ==>
                   after[j] == Frame(stream[j - |before|], BusAt(c, j - |before|))
    ensures after == before + FramesTo(c, stream, n) ==> |after| == |before| + n
  {
    hide BusAt;
    if before + FramesTo(c, stream, n) <= after {
      var all := before + FramesTo(c, stream, n);
      forall j | |before| <= j < |before| + n
        ensures after[j] == Frame(stream[j - |before|], BusAt(c, j - |before|))
      {
        assert all[j] == after[j];
      }
    }
  }

  /** The controller with its registers.  How often the driver finds the transmit queue full or no reply there is
      up to the environment, but finite; a slave that never answers is one that answers after more polls than
      the time-out allows.  `log` is what has happened since `start`. */
  class Controller {
    var fmt: bv32
    var sckmode: bv32
    var csdef: nat
    var csid: nat
    var csmode: bv32
    var fctrl: nat
    var stored: seq<nat>
    var wire: seq<Frame>
    var replies: seq<nat>
    var taken: nat
    var txBusy: nat
    var rxDelay: nat
    var now: nat
    const depth: nat
    ghost var start: Machine
    ghost var log: seq<Event>

    function BusNow(): Bus
      reads `fmt, `sckmode, `csdef, `csid, `csmode
    {
      Selected(fmt, sckmode, csdef, csid, csmode)
    }

    ghost function Now(): Machine
      reads `fmt, `sckmode, `csdef, `csid, `csmode, `stored, `wire, `replies, `taken
    {
      Machine(BusNow(), stored, wire, replies, taken)
    }

    ghost predicate Valid()
      reads `fmt, `sckmode, `csdef, `csid, `csmode, `stored, `wire, `replies, `taken, `start, `log
    {
      1 <= depth && Ok(Now()) && Ok(start) && Legal(start, log) && Now() == Run(start, log)
    }

    // -------------------------------------------------------------- what the hardware does

    /** The byte at the head of the transmit queue leaves, and is answered. */
    method ShiftOut()
      requires Valid() && |wire| < |stored|
      modifies `wire, `replies, `log
      ensures Valid() && DriverPart(log) == old(DriverPart(log))
      ensures old(replies) <= replies && |replies| == |old(replies)| + 1 && |wire| == |old(wire)| + 1
    {
      hide Selected;
      var r: nat :| r < 0x100;
      Append(start, log, Shift(r));
      StepEffect(Now(), Shift(r));
      NoneAfter(DriverPart(log));
      wire := wire + [Frame(stored[|wire|], BusNow())];
      replies := replies + [r];
      log := log + [Shift(r)];
    }

    /** Between any two accesses of the driver, any number of queued bytes leaves. */
    method Environment()
      requires Valid()
      modifies `wire, `replies, `log
      ensures Valid() && DriverPart(log) == old(DriverPart(log)) && old(replies) <= replies
    {
      var n: nat := *;
      while n > 0
        invariant Valid() && DriverPart(log) == old(DriverPart(log)) && old(replies) <= replies
      {
        if |wire| < |stored| { ShiftOut(); }
        n := n - 1;
      }
    }

    lemma Logged(m: Machine, e: Event)
      requires Ok(start) && Ok(m) && Legal(start, log) && Run(start, log) == m && Possible(m, e) && !e.Shift?
      ensures Legal(start, log + [e]) && Run(start, log + [e]) == Step(m, e) && Ok(Step(m, e))
      ensures DriverPart(log + [e]) == DriverPart(log) + [e]
    {
      Append(start, log, e);
      StepEffect(m, e);
    }

    /** A read of TXDATA. */
    method TxFull() returns (full: bool)
      requires Valid()
      modifies `wire, `replies, `log, `txBusy
      ensures Valid() && DriverPart(log) == old(DriverPart(log)) && old(replies) <= replies
      ensures txBusy <= old(txBusy) && (full ==> txBusy < old(txBusy))
      ensures full <==> |stored| - |wire| >= depth
    {
      hide Selected, Run, Legal, DriverPart, Ok;
      Environment();
      if |stored| - |wire| >= depth && txBusy == 0 { DrainTo(depth - 1); }
      full := |stored| - |wire| >= depth;
      if full { txBusy := txBusy - 1; }
    }

    /** The queue empties until no more than n bytes are left in it. */
    method DrainTo(n: nat)
      requires Valid()
      modifies `wire, `replies, `log
      ensures Valid() && DriverPart(log) == old(DriverPart(log)) && old(replies) <= replies
      ensures |stored| - |wire| <= n
    {
      hide Selected, Run, Legal, DriverPart, Ok;
      while |stored| - |wire| > n
        invariant Valid() && DriverPart(log) == old(DriverPart(log)) && old(replies) <= replies
        decreases |stored| - |wire|
      {
        ShiftOut();
      }
    }

    /** A write of TXDATA: the byte joins the queue, which must not be full. */
    method WriteTx(b: nat)
      requires Valid() && !BusNow().rxOff && |stored| - |wire| < depth
      modifies `stored, `wire, `replies, `log, `txBusy, `rxDelay
      ensures Valid() && DriverPart(log) == old(DriverPart(log)) + [Store(b)] && old(replies) <= replies
      ensures stored == old(stored) + [b]
    {
      hide Selected, Run, Legal, DriverPart, Ok;
      Environment();
      Logged(Now(), Store(b));
      stored := stored + [b];
      log := log + [Store(b)];
      txBusy := *;
      rxDelay := *;
    }

    /** A read of RXDATA, when some reply is owed. */
    method ReadRx() returns (empty: bool, data: nat)
      requires Valid() && taken < |stored|
      modifies `wire, `replies, `taken, `log, `rxDelay
      ensures Valid() && old(replies) <= replies && rxDelay <= old(rxDelay)
      ensures empty ==> taken == old(taken) == |replies| && rxDelay < old(rxDelay)
                        && DriverPart(log) == old(DriverPart(log))
      ensures !empty ==> taken == old(taken) + 1 <= |replies| && data == replies[old(taken)]
                         && DriverPart(log) == old(DriverPart(log)) + [Take]
    {
      hide Selected, Run, Legal, DriverPart, Ok;
      Environment();
      WireFits(Now());
      if taken == |replies| && rxDelay == 0 { ShiftOut(); }
      WireFits(Now());
      empty, data := taken == |replies|, 0;
      if empty {
        rxDelay := rxDelay - 1;
      } else {
        data := replies[taken];
        Logged(Now(), Take);
        taken := taken + 1;
        log := log + [Take];
      }
    }

    /** The reply is not there, and will not be waited for. */
    ghost method GiveUp()
      requires Valid() && taken == |replies|
      modifies `log
      ensures Valid() && DriverPart(log) == old(DriverPart(log)) + [Miss]
    {
      Logged(Now(), Miss);
      log := log + [Miss];
    }

    lemma BytesFit()
      requires Valid()
      ensures taken <= |replies| <= |stored|
    {
    }

    method Time() returns (t: nat)
      modifies `now
      ensures t == now >= old(now)
    {
      t :| t >= now;
      now := t;
    }

    // The register accesses, each named for the field it changes.

    /** One register was written, so that the bus is now b; some bytes may have left before. */
    twostate predicate Wrote(b: Bus)
      reads this
    {
      Valid() && BusNow() == b && DriverPart(log) == old(DriverPart(log)) + [Write(b)] && old(replies) <= replies
    }

    method ClearProto()
      requires Valid()
      modifies `fmt, `wire, `replies, `log
      ensures Wrote(old(BusNow()).(proto := 0))
    {
      hide Selected, Without, With, WithBit, ProtoCode, Run, Legal, DriverPart, Ok;
      Environment();
      ghost var m := Now();
      ProtoField(fmt, sckmode, csdef, csid, csmode);
      fmt := Without(fmt, PROTO_MASK);
      Logged(m, Write(BusNow()));
      log := log + [Write(BusNow())];
    }

    method OrProto(p: nat)
      requires Valid() && p <= 2 && BusNow().proto == 0
      modifies `fmt, `wire, `replies, `log
      ensures Wrote(old(BusNow()).(proto := p))
    {
      hide Selected, Without, With, WithBit, ProtoCode, Run, Legal, DriverPart, Ok;
      Environment();
      ghost var m := Now();
      ProtoCodes(p);
      ProtoSet(fmt, ProtoCode(p), sckmode, csdef, csid, csmode);
      fmt := With(fmt, ProtoCode(p));
      Logged(m, Write(BusNow()));
      log := log + [Write(BusNow())];
    }

    method PutPolarity(on: bool)
      requires Valid()
      modifies `sckmode, `wire, `replies, `log
      ensures Wrote(old(BusNow()).(polarity := on))
    {
      hide Selected, Without, With, WithBit, ProtoCode, Run, Legal, DriverPart, Ok;
      Environment();
      ghost var m := Now();
      SckFields(fmt, sckmode, on, csdef, csid, csmode);
      sckmode := WithBit(sckmode, SCKMODE_POL, on);
      Logged(m, Write(BusNow()));
      log := log + [Write(BusNow())];
    }

    method PutPhase(on: bool)
      requires Valid()
      modifies `sckmode, `wire, `replies, `log
      ensures Wrote(old(BusNow()).(phase := on))
    {
      hide Selected, Without, With, WithBit, ProtoCode, Run, Legal, DriverPart, Ok;
      Environment();
      ghost var m := Now();
      SckFields(fmt, sckmode, on, csdef, csid, csmode);
      sckmode := WithBit(sckmode, SCKMODE_PHA, on);
      Logged(m, Write(BusNow()));
      log := log + [Write(BusNow())];
    }

    method PutOrder(lsbFirst: bool)
      requires Valid()
      modifies `fmt, `wire, `replies, `log
      ensures Wrote(old(BusNow()).(lsbFirst := lsbFirst))
    {
      hide Selected, Without, With, WithBit, ProtoCode, Run, Legal, DriverPart, Ok;
      Environment();
      ghost var m := Now();
      OrderField(fmt, lsbFirst, sckmode, csdef, csid, csmode);
      fmt := WithBit(fmt, ENDIAN_LSB, lsbFirst);
      Logged(m, Write(BusNow()));
      log := log + [Write(BusNow())];
    }

    method ReceiverOn()
      requires Valid()
      modifies `fmt, `wire, `replies, `log
      ensures Wrote(old(BusNow()).(rxOff := false))
    {
      hide Selected, Without, With, WithBit, ProtoCode, Run, Legal, DriverPart, Ok;
      Environment();
      ghost var m := Now();
      FrameFields(fmt, sckmode, csdef, csid, csmode);
      fmt := Without(fmt, DISABLE_RX);
      Logged(m, Write(BusNow()));
      log := log + [Write(BusNow())];
    }

    method ClearLength()
      requires Valid()
      modifies `fmt, `wire, `replies, `log
      ensures Wrote(old(BusNow()).(frameLen := 0))
    {
      hide Selected, Without, With, WithBit, ProtoCode, Run, Legal, DriverPart, Ok;
      Environment();
      ghost var m := Now();
      FrameFields(fmt, sckmode, csdef, csid, csmode);
      fmt := Without(fmt, FRAME_LEN_MASK);
      Logged(m, Write(BusNow()));
      log := log + [Write(BusNow())];
    }

    method OrLength()
      requires Valid() && BusNow().frameLen == 0
      modifies `fmt, `wire, `replies, `log
      ensures Wrote(old(BusNow()).(frameLen := FRAME_LEN_8))
    {
      hide Selected, Without, With, WithBit, ProtoCode, Run, Legal, DriverPart, Ok;
      Environment();
      ghost var m := Now();
      LengthSet(fmt, sckmode, csdef, csid, csmode);
      fmt := With(fmt, LEN_8);
      Logged(m, Write(BusNow()));
      log := log + [Write(BusNow())];
    }

    method PutLevel(level: nat)
      requires Valid()
      modifies `csdef, `wire, `replies, `log
      ensures Wrote(old(BusNow()).(csdef := level))
    {
      hide Without, With, WithBit, ProtoCode, Run, Legal, DriverPart, Ok;
      Environment();
      ghost var m := Now();
      csdef := level;
      Logged(m, Write(BusNow()));
      log := log + [Write(BusNow())];
    }

    method PutLine(id: nat)
      requires Valid()
      modifies `csid, `wire, `replies, `log
      ensures Wrote(old(BusNow()).(csid := id))
    {
      hide Without, With, WithBit, ProtoCode, Run, Legal, DriverPart, Ok;
      Environment();
      ghost var m := Now();
      csid := id;
      Logged(m, Write(BusNow()));
      log := log + [Write(BusNow())];
    }

    method PutControl(v: nat)
      requires Valid()
      modifies `fctrl, `wire, `replies, `log
      ensures Wrote(old(BusNow())) && fctrl == v
    {
      hide Without, With, WithBit, ProtoCode, Run, Legal, DriverPart, Ok;
      Environment();
      ghost var m := Now();
      fctrl := v;
      Logged(m, Write(BusNow()));
      log := log + [Write(BusNow())];
    }

    method ClearMode()
      requires Valid()
      modifies `csmode, `wire, `replies, `log
      ensures Wrote(old(BusNow()).(csmode := CSMODE_AUTO))
    {
      hide Selected, Without, With, WithBit, ProtoCode, Run, Legal, DriverPart, Ok;
      Environment();
      ghost var m := Now();
      ModeField(fmt, sckmode, csdef, csid, csmode);
      csmode := Without(csmode, CSMODE_MASK);
      Logged(m, Write(BusNow()));
      log := log + [Write(BusNow())];
    }

    method OrHold()
      requires Valid() && BusNow().csmode == CSMODE_AUTO
      modifies `csmode, `wire, `replies, `log
      ensures Wrote(old(BusNow()).(csmode := CSMODE_HOLD))
    {
      hide Selected, Without, With, WithBit, ProtoCode, Run, Legal, DriverPart, Ok;
      Environment();
      ghost var m := Now();
      ModeField(fmt, sckmode, csdef, csid, csmode);
      csmode := With(csmode, HOLD);
      Logged(m, Write(BusNow()));
      log := log + [Write(BusNow())];
    }

    // -------------------------------------------------------------- what the driver does

    /** configure_spi up to the protocol. */
    method SetProtocol(c: Config) returns (rc: int)
      requires Valid()
      modifies `fmt, `wire, `replies, `log
      ensures Valid() && old(replies) <= replies
      ensures rc == if c.protocol <= 2 then 0 else -1
      ensures rc == -1 ==> DriverPart(log) == old(DriverPart(log)) + [Write(old(BusNow()).(proto := 0))]
      ensures rc == 0 ==> BusNow() == old(BusNow()).(proto := FirstProto(c))
      ensures rc == 0 ==>
                DriverPart(log) == old(DriverPart(log)) + [Write(old(BusNow()).(proto := 0))] + [Write(BusNow())]
    {
      hide Selected, FirstProto, Valid, DriverPart;
      ClearProto();
      if c.protocol > 2 { return -1; }
      OrProto(FirstProto(c));
      rc := 0;
    }

    /** Clock mode and bit order. */
    method SetModes(c: Config)
      requires Valid()
      modifies `fmt, `sckmode, `wire, `replies, `log
      ensures Valid() && old(replies) <= replies
      ensures BusNow() == old(BusNow()).(polarity := c.polarity, phase := c.phase, lsbFirst := c.littleEndian)
      ensures DriverPart(log) == old(DriverPart(log)) + [Write(old(BusNow()).(polarity := c.polarity))]
                + [Write(old(BusNow()).(polarity := c.polarity, phase := c.phase))] + [Write(BusNow())]
    {
      hide Selected, Valid, DriverPart;
      PutPolarity(c.polarity);
      PutPhase(c.phase);
      PutOrder(c.littleEndian);
    }

    /** Receiver on, and chip select level. */
    method SetReceiver(c: Config)
      requires Valid()
      modifies `fmt, `csdef, `wire, `replies, `log
      ensures Valid() && old(replies) <= replies
      ensures BusNow() == old(BusNow()).(rxOff := false, csdef := OnBus(c, 0).csdef)
      ensures DriverPart(log) == old(DriverPart(log)) + [Write(old(BusNow()).(rxOff := false))] + [Write(BusNow())]
    {
      hide Selected, Valid, DriverPart;
      ReceiverOn();
      PutLevel(if c.csActiveHigh then 0 else 1);
    }

    /** Eight-bit frames. */
    method SetLength()
      requires Valid()
      modifies `fmt, `wire, `replies, `log
      ensures Valid() && old(replies) <= replies
      ensures BusNow() == old(BusNow()).(frameLen := FRAME_LEN_8)
      ensures if old(BusNow()).frameLen == FRAME_LEN_8 then DriverPart(log) == old(DriverPart(log))
              else DriverPart(log) == old(DriverPart(log)) + [Write(old(BusNow()).(frameLen := 0))] + [Write(BusNow())]
    {
      hide Selected, Valid, DriverPart;
      LengthIs8(fmt, sckmode, csdef, csid, csmode);
      if fmt & FRAME_LEN_MASK != LEN_8 {
        ClearLength();
        OrLength();
      }
    }

    /** Chip select line, and programmable I/O. */
    method SetLine(c: Config)
      requires Valid()
      modifies `csid, `fctrl, `wire, `replies, `log
      ensures Valid() && old(replies) <= replies && fctrl == 0
      ensures BusNow() == old(BusNow()).(csid := c.csid)
      ensures DriverPart(log) == old(DriverPart(log)) + [Write(BusNow())] + [Write(BusNow())]
    {
      hide Selected, Valid, DriverPart;
      PutLine(c.csid);
      PutControl(0);
    }

    /** The register writes of configure_spi, with whatever the controller does in between. */
    method ConfigureSpi(c: Config) returns (rc: int)
      requires Valid() && DriverPart(log) == []
      modifies `fmt, `sckmode, `csdef, `csid, `fctrl, `wire, `replies, `log
      ensures Valid() && old(replies) <= replies
      ensures rc == if c.protocol <= 2 then 0 else -1
      ensures rc == -1 ==> DriverPart(log) == [Write(old(BusNow()).(proto := 0))]
      ensures rc == 0 ==> DriverPart(log) == ConfigStart(c, old(BusNow())) + ConfigRest(c, old(BusNow())) && fctrl == 0
      ensures rc == 0 ==> BusNow() == OnBus(c, FirstProto(c)).(csmode := old(BusNow()).csmode)
    {
      hide Selected, FirstProto, ConfigStart, ConfigRest, Valid, DriverPart;
      ghost var b := BusNow();
      rc := SetProtocol(c);
      if rc == 0 {
        SetModes(c);
        StartTogether(c, b);
        ghost var p := DriverPart(log);
        SetReceiver(c);
        ghost var b7 := BusNow();
        SetLength();
        SetLine(c);
        RestTogether(c, b, p, b7, BusNow());
      }
    }

    lemma StartTogether(c: Config, b: Bus)
      ensures var b2 := b.(proto := FirstProto(c));
              [] + [Write(b.(proto := 0))] + [Write(b2)]
              + [Write(b2.(polarity := c.polarity))] + [Write(b2.(polarity := c.polarity, phase := c.phase))]
              + [Write(b2.(polarity := c.polarity, phase := c.phase, lsbFirst := c.littleEndian))] == ConfigStart(c, b)
    {
      hide FirstProto;
    }

    lemma RestTogether(c: Config, b: Bus, p: seq<Event>, b7: Bus, b10: Bus)
      requires b7 == WithReceiver(c, b).(csdef := OnBus(c, 0).csdef)
      requires b10 == b7.(frameLen := FRAME_LEN_8, csid := c.csid)
      ensures var start := p + [Write(WithReceiver(c, b))] + [Write(b7)];
              (if b.frameLen == FRAME_LEN_8 then start
               else start + [Write(b7.(frameLen := 0))] + [Write(b7.(frameLen := FRAME_LEN_8))])
              + [Write(b10)] + [Write(b10)] == p + ConfigRest(c, b)
    {
      hide FirstProto;
    }

    method HoldSelect()
      requires Valid()
      modifies `csmode, `wire, `replies, `log
      ensures Valid() && old(replies) <= replies
      ensures DriverPart(log) == old(DriverPart(log)) + [Write(Released(old(BusNow())))] + [Write(BusNow())]
      ensures BusNow() == old(BusNow()).(csmode := CSMODE_HOLD)
    {
      hide Selected, Valid, DriverPart;
      ClearMode();
      OrHold();
    }

    /** spi_mode_switch in front of byte i. */
    method ModeSwitch(c: Config, stage: MultiWire, ghost i: nat)
      requires Valid() && c.protocol <= 2
      requires stage != AllWires && i == (if stage == AddrData then c.cmdNum else Head(c))
      requires c.multiWire == stage ==> BusNow() == Prior(c, i)
      modifies `fmt, `wire, `replies, `log
      ensures Valid() && old(replies) <= replies
      ensures c.multiWire == stage ==> DriverPart(log) == old(DriverPart(log)) + Switch(c, i) && BusNow() == BusAt(c, i)
      ensures c.multiWire != stage ==> log == old(log) && Now() == old(Now())
    {
      hide Selected, Valid, DriverPart, ProtoAt;
      SwitchBus(c, i);
      if c.multiWire == stage {
        ClearProto();
        if c.protocol == 1 || c.protocol == 2 { OrProto(c.protocol); }
      }
    }

    /** One byte stored, and a reply taken or given up. */
    method Exchange(b: nat) returns (timedOut: bool, data: nat)
      requires Valid() && !BusNow().rxOff
      modifies `stored, `wire, `replies, `taken, `log, `txBusy, `rxDelay, `now
      ensures Valid() && old(replies) <= replies && stored == old(stored) + [b]
      ensures timedOut ==> taken == old(taken) && DriverPart(log) == old(DriverPart(log)) + [Store(b), Miss]
      ensures timedOut ==> now > old(now) + 1
      ensures !timedOut ==> taken == old(taken) + 1 <= |replies| && data == replies[old(taken)]
                            && DriverPart(log) == old(DriverPart(log)) + [Store(b), Take]
    {
      hide Selected, Valid, DriverPart;
      BytesFit();
      var full := TxFull();
      while full
        invariant Valid() && DriverPart(log) == old(DriverPart(log)) && old(replies) <= replies
        invariant now == old(now) && taken == old(taken) && stored == old(stored) && (full <==> |stored| - |wire| >= depth)
        decreases txBusy, if full then 1 else 0
      {
        full := TxFull();
      }
      WriteTx(b);
      var t := Time();
      var endwait := t + RXDATA_TIMEOUT;
      var empty;
      timedOut := false;
      empty, data := ReadRx();
      while empty
        invariant Valid() && old(replies) <= replies && stored == old(stored) + [b] && old(now) + 1 <= endwait
        invariant empty ==> taken == old(taken) == |replies| && DriverPart(log) == old(DriverPart(log)) + [Store(b)]
        invariant !empty ==> taken == old(taken) + 1 <= |replies| && data == replies[old(taken)]
                             && DriverPart(log) == old(DriverPart(log)) + [Store(b), Take]
        decreases rxDelay, if empty then 1 else 0
      {
        t := Time();
        if t > endwait {
          GiveUp();
          return true, 0;
        }
        empty, data := ReadRx();
      }
    }
    // -------------------------------------------------------------- a transfer

    /** i bytes have been exchanged since `start`, and the mode switch in front of byte i is made or not. */
    ghost predicate Reached(c: Config, stream: seq<nat>, i: nat, switched: bool)
      requires i <= |stream|
      reads this
    {
      && Valid() && c.protocol <= 2
      && DriverPart(log) == ConfigWrites(c, start.bus) + Bytes(c, stream, i) + (if switched then Switch(c, i) else [])
      && BusNow() == (if switched then BusAt(c, i) else Prior(c, i))
      && taken == start.taken + i
    }

    /** Where no mode switch is due, none need be made. */
    lemma NoSwitch(c: Config, stream: seq<nat>, i: nat)
      requires i <= |stream| && Switch(c, i) == []
      ensures Reached(c, stream, i, false) <==> Reached(c, stream, i, true)
    {
      hide Valid, DriverPart, Prior, BusAt, Switch, ConfigWrites, Bytes;
      SwitchBus(c, i);
    }

    /** One more byte exchanged, or the reply given up. */
    lemma ByteDone(c: Config, stream: seq<nat>, i: nat, p: seq<Event>)
      requires i < |stream| && p == ConfigWrites(c, start.bus) + Bytes(c, stream, i) + Switch(c, i)
      ensures p + [Store(stream[i]), Take] == ConfigWrites(c, start.bus) + Bytes(c, stream, i + 1) + []
      ensures p + [Store(stream[i]), Miss] + [Write(Released(BusAt(c, i)))] == Program(c, start.bus, stream, i, true)
    {
      hide ConfigWrites, Switch, BusAt, Released;
    }

    /** The body of the byte loops up to its handling of a time-out. */
    method OneByte(c: Config, tx: array?<nat>, rx: array?<nat>, i: nat, ghost stream: seq<nat>, ghost rx0: seq<nat>)
        returns (timedOut: bool)
      requires i < |stream| && (rx != null ==> i < rx.Length)
      requires Reached(c, stream, i, true) && Received(rx, rx0, replies, start.taken, i) && Sends(tx, stream, i)
      modifies `stored, `wire, `replies, `taken, `log, `txBusy, `rxDelay, `now, rx
      ensures Valid() && BusNow() == old(BusNow())
      ensures !timedOut ==> Reached(c, stream, i + 1, false) && Sends(tx, stream, i + 1)
      ensures timedOut ==> DriverPart(log) == old(DriverPart(log)) + [Store(stream[i]), Miss]
      ensures Received(rx, rx0, replies, start.taken, if timedOut then i else i + 1)
    {
      hide Selected, ProtoAt, Valid, DriverPart, ConfigWrites, Bytes, Switch, Received, Sends;
      NextByte(tx, stream, i);
      ByteDone(c, stream, i, DriverPart(log));
      var b := if tx != null then tx[i] else 0;
      ghost var before := replies;
      var data;
      timedOut, data := Exchange(b);
      StillReceived(rx, rx0, before, replies, start.taken, i);
      if !timedOut { Put(tx, rx, i, data, stream, rx0); }
    }

    /** if (rx_buf) rx_buf[i] = data; the two buffers may be one and the same. */
    method Put(tx: array?<nat>, rx: array?<nat>, i: nat, data: nat, ghost stream: seq<nat>, ghost rx0: seq<nat>)
      requires Sends(tx, stream, i) && (rx != null ==> i < rx.Length)
      requires Received(rx, rx0, replies, start.taken, i)
      requires start.taken + i < |replies| && data == replies[start.taken + i]
      modifies rx
      ensures Sends(tx, stream, i + 1) && Received(rx, rx0, replies, start.taken, i + 1)
    {
      if rx != null { rx[i] := data; }
    }

    /** One of the four byte loops: from `first` up to `end`, the mode switch in front of it being made. */
    method Phase(c: Config, tx: array?<nat>, rx: array?<nat>, first: nat, end: nat, ghost stream: seq<nat>,
                 ghost rx0: seq<nat>, ghost switched: bool)
        returns (rc: int, ghost n: nat)
      requires first <= end <= |stream| && Reached(c, stream, first, switched)
      requires forall k :: first <= k < end && (first < k || !switched) ==> Switch(c, k) == []
      requires Received(rx, rx0, replies, start.taken, first) && Sends(tx, stream, first)
      requires rx != null ==> end <= rx.Length
      modifies `stored, `wire, `replies, `taken, `log, `txBusy, `rxDelay, `now, `csmode, rx
      ensures rc == 0 || rc == 1
      ensures rc == 0 ==> n == end && Reached(c, stream, end, switched && first == end) && Sends(tx, stream, end)
      ensures rc == 1 ==> n < end && DriverPart(log) == Program(c, start.bus, stream, n, true)
      ensures Valid() && (rc == 1 ==> BusNow().csmode == CSMODE_AUTO)
      ensures Received(rx, rx0, replies, start.taken, n)
    {
      hide Selected, Reached, Valid, DriverPart, ConfigWrites, Bytes, Switch, Received, Sends, BusAt, Program;
      var i := first;
      while i < end
        invariant first <= i <= end && csmode == old(csmode)
        invariant Reached(c, stream, i, switched && i == first)
        invariant Received(rx, rx0, replies, start.taken, i) && Sends(tx, stream, i)
      {
        if !(switched && i == first) { NoSwitch(c, stream, i); }
        ghost var p := DriverPart(log);
        Position(c, stream, i);
        ByteDone(c, stream, i, p);
        var timedOut := OneByte(c, tx, rx, i, stream, rx0);
        if timedOut {
          ghost var before := replies;
          ClearMode();
          StillReceived(rx, rx0, before, replies, start.taken, i);
          return 1, i;
        }
        i := i + 1;
      }
      rc, n := 0, end;
      IsValid(c, stream, end, switched && first == end);
    }

    lemma Position(c: Config, stream: seq<nat>, i: nat)
      requires i <= |stream| && Reached(c, stream, i, true)
      ensures DriverPart(log) == ConfigWrites(c, start.bus) + Bytes(c, stream, i) + Switch(c, i)
      ensures Valid() && BusNow() == BusAt(c, i)
    {
    }

    lemma IsValid(c: Config, stream: seq<nat>, i: nat, switched: bool)
      requires i <= |stream| && Reached(c, stream, i, switched)
      ensures Valid()
    {
    }

    /** The four phases, once the controller is configured. */
    method Phases(c: Config, len: nat, tx: array?<nat>, rx: array?<nat>, ghost stream: seq<nat>, ghost rx0: seq<nat>)
        returns (rc: int, ghost n: nat)
      requires |stream| == Total(c, len) && Reached(c, stream, 0, false)
      requires Received(rx, rx0, replies, start.taken, 0) && Sends(tx, stream, 0)
      requires rx != null ==> Total(c, len) <= rx.Length
      modifies `fmt, `stored, `wire, `replies, `taken, `log, `txBusy, `rxDelay, `now, `csmode, rx
      ensures rc == 0 || rc == 1
      ensures rc == 0 ==> n == Total(c, len) && Reached(c, stream, n, true)
      ensures rc == 1 ==> n < |stream| && DriverPart(log) == Program(c, start.bus, stream, n, true)
      ensures Valid() && (rc == 1 ==> BusNow().csmode == CSMODE_AUTO)
      ensures Received(rx, rx0, replies, start.taken, n)
    {
      hide Selected, Reached, Valid, DriverPart, ConfigWrites, Bytes, Received, Sends, BusAt, Program, ProtoBits;
      ghost var a := c.multiWire == AddrData;
      rc, n := Phase(c, tx, rx, 0, c.cmdNum, stream, rx0, false);
      if rc != 0 { return; }

      SwitchStage(c, AddrData, stream, c.cmdNum, false, rx, rx0);
      rc, n := Phase(c, tx, rx, c.cmdNum, c.cmdNum + c.addrNum, stream, rx0, a);
      if rc != 0 { return; }
      if a && c.addrNum > 0 { NoSwitch(c, stream, c.cmdNum + c.addrNum); }
      rc, n := Phase(c, tx, rx, c.cmdNum + c.addrNum, Head(c), stream, rx0, a);
      if rc != 0 { return; }
      if a && c.dummyNum > 0 { NoSwitch(c, stream, Head(c)); }

      SwitchStage(c, DataOnly, stream, Head(c), a, rx, rx0);
      if c.multiWire == AllWires { NoSwitch(c, stream, Head(c)); }
      rc, n := Phase(c, tx, rx, Head(c), Total(c, len), stream, rx0, true);
      if rc == 0 && Head(c) < n { NoSwitch(c, stream, n); }
    }

    /** spi_mode_switch between the phases. */
    method SwitchStage(c: Config, stage: MultiWire, ghost stream: seq<nat>, ghost i: nat, ghost switched: bool,
                       rx: array?<nat>, ghost rx0: seq<nat>)
      requires stage != AllWires && i == (if stage == AddrData then c.cmdNum else Head(c)) <= |stream|
      requires Reached(c, stream, i, switched) && (c.multiWire == stage ==> !switched)
      requires Received(rx, rx0, replies, start.taken, i)
      modifies `fmt, `wire, `replies, `log
      ensures Reached(c, stream, i, if c.multiWire == stage then true else switched)
      ensures Received(rx, rx0, replies, start.taken, i)
    {
      hide Selected, Valid, DriverPart, ConfigWrites, Bytes, Switch, Received, BusAt, Prior;
      ghost var before := replies;
      ModeSwitch(c, stage, i);
      StillReceived(rx, rx0, before, replies, start.taken, i);
    }

    /** A whole transfer, told by its log. */
    method LoggedTransfer(c: Config, len: nat, tx: array?<nat>, rx: array?<nat>) returns (rc: int, ghost n: nat)
      requires 1 <= depth && Ok(Now())
      requires tx != null ==> Total(c, len) <= tx.Length
      requires rx != null ==> Total(c, len) <= rx.Length
      modifies this, rx
      ensures Valid() && start == old(Now())
      ensures -1 <= rc <= 1 && (rc == -1 <==> c.protocol > 2)
      ensures rc == -1 ==> IsCall(old(Now()), Refused, log) && n == 0
      ensures rc == 0 ==> n == Total(c, len)
      ensures rc == 1 ==> n < Total(c, len)
      ensures rc >= 0 ==> IsCall(old(Now()), Call.Transfer(c, old(Stream(tx, Total(c, len))), n, rc == 1), log)
      ensures rc >= 0 ==> Transferred(c, old(Stream(tx, Total(c, len))), old(Now()), Now(), n, rc == 1)
      ensures rc >= 0 ==> BusNow().csmode == CSMODE_AUTO
      ensures rc >= 0 && old(Owed(Now())) == 0 ==> old(wire) + FramesTo(c, old(Stream(tx, Total(c, len))), n) <= wire
      ensures rc == 0 && old(Owed(Now())) == 0 ==> wire == old(wire) + FramesTo(c, old(Stream(tx, Total(c, len))), n)
      ensures Received(rx, if rx == null then [] else old(rx[..]), replies, old(taken), n)
    {
      hide Selected, Reached, Valid, DriverPart, ConfigWrites, Bytes, Received, Sends, BusAt, Program, ProtoBits, Run,
           Legal, Stream, Transferred, FramesTo, IsCall, FirstProto, ConfigStart, ConfigRest;
      ghost var stream := Stream(tx, Total(c, len));
      ghost var rx0 := if rx == null then [] else rx[..];
      StreamSends(tx, Total(c, len));
      ghost var m := Now();
      start, log := m, [];
      Begun();
      NothingReceived(rx, rx0);
      n := 0;
      rc := ConfigureSpi(c);
      StillReceived(rx, rx0, m.replies, replies, m.taken, 0);
      if rc == -1 {
        RefusalTells(m);
      } else {
        rc, n := Exchanges(c, len, tx, rx, stream, rx0);
        LogTells(c, stream, m, n, rc == 1);
      }
    }

    /** A whole transfer.  Whatever the controller does in between, the driver stores the right bytes, takes a reply
        after each, and writes the registers in the right places; what that amounts to on the wire is
        SpiTraffic.EveryTransfer, and spelled out here for a controller that owes no reply at the start. */
    method Transfer(c: Config, len: nat, tx: array?<nat>, rx: array?<nat>) returns (rc: int, ghost n: nat)
      requires 1 <= depth && Ok(Now())
      requires tx != null ==> len <= tx.Length && c.cmdNum + c.addrNum + c.dummyNum <= tx.Length
      requires rx != null ==> len <= rx.Length && c.cmdNum + c.addrNum + c.dummyNum <= rx.Length
      modifies this, rx
      ensures Valid() && start == old(Now())
      ensures -1 <= rc <= 1 && (rc == -1 <==> c.protocol > 2)
      ensures rc == -1 ==> IsCall(old(Now()), Refused, log) && n == 0
      ensures rc == -1 ==> stored == old(stored) && taken == old(taken)
      // how many bytes
      ensures var head := c.cmdNum + c.addrNum + c.dummyNum;
              && (rc == 0 ==> n >= len && n >= head && (n == len || n == head))
              && (rc == 1 ==> n < len || n < head)
      ensures rc >= 0 ==> |stored| == |old(stored)| + n + rc && taken == old(taken) + n
      // which bytes, and where the replies go
      ensures rc >= 0 ==> old(stored) <= stored
      ensures rc >= 0 ==> forall j :: |old(stored)| <= j < |stored| ==>
                stored[j] == if tx == null then 0 else old(tx[j - |stored|])
      ensures old(taken) + n <= |replies|
      ensures rx != null ==> rx.Length >= n && forall k :: 0 <= k < rx.Length ==>
                rx[k] == if k < n then replies[old(taken) + k] else old(rx[k])
      // what is on the wire
      ensures rc >= 0 ==> BusNow().csmode == CSMODE_AUTO
      ensures rc >= 0 ==> IsCall(old(Now()), Call.Transfer(c, old(Stream(tx, Total(c, len))), n, rc == 1), log)
      ensures rc >= 0 ==> Transferred(c, old(Stream(tx, Total(c, len))), old(Now()), Now(), n, rc == 1)
      ensures rc >= 0 && old(Owed(Now())) == 0 ==>
                && old(wire) <= wire && |old(wire)| + n <= |wire|
                && forall j :: |old(wire)| <= j < |old(wire)| + n ==>
                     wire[j] == Frame(if tx == null then 0 else old(tx[j - |wire|]), BusAt(c, j - |old(wire)|))
      ensures rc == 0 && old(Owed(Now())) == 0 ==> |wire| == |old(wire)| + n
    {
      hide Valid, Received, BusAt, Program, Run, Legal, Stream, Transferred, FramesTo, IsCall;
      ghost var m, stream := Now(), Stream(tx, Total(c, len));
      ghost var rx0 := if rx == null then [] else rx[..];
      StreamMeans(tx, Total(c, len));
      rc, n := LoggedTransfer(c, len, tx, rx);
      ReceivedMeans(rx, rx0, replies, m.taken, n);
      if rc == -1 {
        RefusalMeans(m);
      } else {
        StoredMeans(c, stream, m, Now(), n, rc == 1);
        FramesMean(c, stream, m.wire, wire, n);
      }
    }

    /** Everything after the configuration. */
    method Exchanges(c: Config, len: nat, tx: array?<nat>, rx: array?<nat>, ghost stream: seq<nat>, ghost rx0: seq<nat>)
        returns (rc: int, ghost n: nat)
      requires Valid() && |stream| == Total(c, len) && c.protocol <= 2 && taken == start.taken
      requires DriverPart(log) == ConfigStart(c, start.bus) + ConfigRest(c, start.bus)
      requires BusNow() == OnBus(c, FirstProto(c)).(csmode := start.bus.csmode)
      requires Received(rx, rx0, replies, start.taken, 0) && Sends(tx, stream, 0)
      requires rx != null ==> Total(c, len) <= rx.Length
      modifies `fmt, `stored, `wire, `replies, `taken, `log, `txBusy, `rxDelay, `now, `csmode, rx
      ensures rc == 0 || rc == 1
      ensures if rc == 0 then n == Total(c, len) else n < Total(c, len)
      ensures Valid() && DriverPart(log) == Program(c, start.bus, stream, n, rc == 1)
      ensures BusNow().csmode == CSMODE_AUTO && Received(rx, rx0, replies, start.taken, n)
    {
      hide Selected, Reached, Valid, DriverPart, ConfigWrites, ConfigStart, ConfigRest, Bytes, Received, Sends, BusAt,
           Program, FirstProto;
      ghost var before := replies;
      HoldSelect();
      StillReceived(rx, rx0, before, replies, start.taken, 0);
      AtStart(c, stream, start);
      rc, n := Phases(c, len, tx, rx, stream, rx0);
      if rc == 0 { Finish(c, stream, rx, rx0); }
    }

    lemma RefusalMeans(m: Machine)
      requires Valid() && start == m && IsCall(m, Refused, log)
      ensures stored == m.stored && taken == m.taken
    {
      RefusedEffect(m, log);
    }

    lemma Begun()
      requires 1 <= depth && Ok(Now()) && start == Now() && log == []
      ensures Valid() && DriverPart(log) == []
    {
    }

    lemma RefusalTells(m: Machine)
      requires Valid() && start == m && DriverPart(log) == [Write(m.bus.(proto := 0))]
      ensures IsCall(m, Refused, log)
    {
    }

    lemma NothingReceived(rx: array?<nat>, rx0: seq<nat>)
      requires Ok(Now()) && (rx != null ==> rx[..] == rx0)
      ensures Received(rx, rx0, replies, taken, 0)
    {
    }

    lemma AtStart(c: Config, stream: seq<nat>, m: Machine)
      requires Valid() && start == m && taken == m.taken && c.protocol <= 2 && BusNow() == OnBus(c, FirstProto(c))
      requires DriverPart(log)
               == ConfigStart(c, m.bus) + ConfigRest(c, m.bus) + [Write(Released(BusNow()))] + [Write(BusNow())]
      ensures Reached(c, stream, 0, false)
    {
      hide Valid, DriverPart, ConfigStart, ConfigRest, FirstProto;
      assert Bytes(c, stream, 0) == [];
      assert DriverPart(log) == ConfigWrites(c, m.bus) + [] + [];
    }

    /** The release of the chip select. */
    method Finish(c: Config, ghost stream: seq<nat>, rx: array?<nat>, ghost rx0: seq<nat>)
      requires Reached(c, stream, |stream|, true) && Received(rx, rx0, replies, start.taken, |stream|)
      modifies `csmode, `wire, `replies, `log
      ensures Valid() && DriverPart(log) == Program(c, start.bus, stream, |stream|, false)
      ensures Received(rx, rx0, replies, start.taken, |stream|) && BusNow().csmode == CSMODE_AUTO
    {
      hide Selected, Valid, DriverPart, ConfigWrites, Bytes, Switch, Received, BusAt;
      ghost var before := replies;
      Position(c, stream, |stream|);
      Assoc(ConfigWrites(c, start.bus) + Bytes(c, stream, |stream|), Switch(c, |stream|),
            [Write(Released(BusAt(c, |stream|)))]);
      ClearMode();
      StillReceived(rx, rx0, before, replies, start.taken, |stream|);
    }

    /** The log of a transfer tells what is on the wire. */
    lemma LogTells(c: Config, stream: seq<nat>, m: Machine, n: nat, timedOut: bool)
      requires Valid() && start == m && (if timedOut then n < |stream| else n == |stream|)
      requires DriverPart(log) == Program(c, m.bus, stream, n, timedOut)
      ensures IsCall(m, Call.Transfer(c, stream, n, timedOut), log) && Transferred(c, stream, m, Now(), n, timedOut)
      ensures Ok(m) && (Owed(m) == 0 ==> m.wire + FramesTo(c, stream, n) <= wire)
      ensures Owed(m) == 0 && !timedOut ==> wire == m.wire + FramesTo(c, stream, n)
    {
      hide Program, Run, Legal, DriverPart, Transferred;
      EveryTransfer(c, stream, m, log, n, timedOut);
      if Owed(m) == 0 { CleanTransfer(c, stream, m, Now(), n, timedOut); }
    }
  }
}
