/**
 The trace driver packs characters into 32-bit stimulus writes, and flushes what is pending with
 16- and 8-bit writes at the end of a line.
 */
module Trace {
  import opened Arith
  import opened Bits

  const TWO32: nat := 0x1_0000_0000

  /** A write to the stimulus port, with the width that the bus sees. */
  datatype Write = W32(data: nat) | W16(data: nat) | W8(data: nat)

  /** The driver's two static variables and the writes it has made. */
  datatype State = State(buffer: nat, count: nat, log: seq<Write>)

  const START := State(0, 0, [])

  // ---------------------------------------------------------------- the bytes on the wire

  function Byte0(d: nat): nat { d % 0x100 }
  function Byte1(d: nat): nat { d / 0x100 % 0x100 }
  function Byte2(d: nat): nat { d / 0x1_0000 % 0x100 }
  function Byte3(d: nat): nat { d / 0x100_0000 % 0x100 }

  /** The bytes of one write, the low one first. */
  function Decode(w: Write): seq<nat> {
    match w
    case W32(d) => [Byte0(d), Byte1(d), Byte2(d), Byte3(d)]
    case W16(d) => [Byte0(d), Byte1(d)]
    case W8(d) => [Byte0(d)]
  }

  function DecodeAll(ws: seq<Write>): seq<nat> {
    if ws == [] then [] else DecodeAll(ws[..|ws| - 1]) + Decode(ws[|ws| - 1])
  }

  /** The bytes of a write are its digits to the base 256, the low one first. */
  lemma LittleEndian(w: Write)
    ensures forall k :: 0 <= k < |Decode(w)| ==> Decode(w)[k] < 0x100
    ensures w.W32? && w.data < TWO32 ==>
              |Decode(w)| == 4 && w.data == Decode(w)[0] + Decode(w)[1] * 0x100 + Decode(w)[2] * 0x1_0000
                                            + Decode(w)[3] * 0x100_0000
    ensures w.W16? && w.data < 0x1_0000 ==> |Decode(w)| == 2 && w.data == Decode(w)[0] + Decode(w)[1] * 0x100
    ensures w.W8? && w.data < 0x100 ==> |Decode(w)| == 1 && w.data == Decode(w)[0]
  {
    hide Byte0, Byte1, Byte2, Byte3;
    Digits(w.data);
  }

  lemma Digits(d: nat)
    ensures Byte0(d) < 0x100 && Byte1(d) < 0x100 && Byte2(d) < 0x100 && Byte3(d) < 0x100
    ensures d < TWO32 ==> d == Byte0(d) + Byte1(d) * 0x100 + Byte2(d) * 0x1_0000 + Byte3(d) * 0x100_0000
    ensures (d < 0x1_0000 ==> d == Byte0(d) + Byte1(d) * 0x100) && (d < 0x100 ==> d == Byte0(d))
  {
    var d1 := d / 0x100;
    var d2 := d1 / 0x100;
    var d3 := d2 / 0x100;
    assert d == Byte0(d) + d1 * 0x100;
    assert d / 0x1_0000 == d2 && d / 0x100_0000 == d3;
    assert d1 == Byte1(d) + d2 * 0x100 && d2 == Byte2(d) + d3 * 0x100;
  }

  lemma DecodeLast(ws: seq<Write>, w: Write)
    ensures DecodeAll(ws + [w]) == DecodeAll(ws) + Decode(w)
  {
    hide Decode;
    assert (ws + [w])[..|ws + [w]| - 1] == ws;
  }

  /** The bytes that wait in the buffer. */
  function Pending(s: State): seq<nat> {
    if s.count == 0 then []
    else if s.count == 1 then [Byte0(s.buffer)]
    else if s.count == 2 then [Byte0(s.buffer), Byte1(s.buffer)]
    else [Byte0(s.buffer), Byte1(s.buffer), Byte2(s.buffer)]
  }

  function Contents(s: State): seq<nat> { DecodeAll(s.log) + Pending(s) }

  /** 256^count */
  function Place(count: nat): nat
    requires count <= 3
  {
    if count == 0 then 1 else if count == 1 then 0x100 else if count == 2 then 0x1_0000 else 0x100_0000
  }

  /** At most three bytes wait, and the buffer holds nothing else. */
  ghost predicate Valid(s: State) {
    s.count <= 3 && s.buffer < Place(s.count)
  }

  // ---------------------------------------------------------------- one character

  /** buffer | (uint32_t)c << (count * 8) */
  function Joined(b: nat, c: nat, count: nat): nat
    requires count <= 3
  {
    Or(b, Mod(c * Place(count), TWO32))
  }

  /** (char)c is a newline or a carriage return */
  predicate EndsLine(c: nat) { c % 0x100 == 10 || c % 0x100 == 13 }

  function Flush(b: nat, count: nat): seq<Write> {
    if count == 3 then [W16(b % 0x1_0000), W8(b / 0x1_0000 % 0x100)]
    else if count == 2 then [W16(b % 0x1_0000)]
    else [W8(b % 0x100)]
  }

  function AfterPut(s: State, c: nat): State
    requires s.count <= 3
  {
    var b := Joined(s.buffer, c, s.count);
    if s.count + 1 >= 4 then State(0, 0, s.log + [W32(b)])
    else if EndsLine(c) then State(0, 0, s.log + Flush(b, s.count + 1))
    else State(b, s.count + 1, s.log)
  }

  /** The part of the character that the shift into place leaves in the 32-bit word. */
  function Kept(c: nat, count: nat): nat
    requires count <= 3
  {
    if count == 0 then c % TWO32
    else if count == 1 then c % 0x100_0000
    else if count == 2 then c % 0x1_0000
    else c % 0x100
  }

  /** No bit of the character above its low byte lands in the buffer and stays there. */
  predicate Clean(s: State, c: nat)
    requires s.count <= 3
  {
    EndsLine(c) || Kept(c, s.count) < 0x100
  }

  lemma Places(count: nat)
    requires count <= 3
    ensures Pow2(8 * count) == Place(count)
  {
    assert Pow2(8) == 0x100 by { assert Pow2(4) == 16; }
    Pow2Add(8, 8);
    Pow2Add(8, 16);
  }

  lemma ShiftKeeps(c: nat, count: nat)
    requires count <= 3
    ensures Mod(c * Place(count), TWO32) == Kept(c, count) * Place(count)
  {
    if count == 1 { QuotientUnique(c * 0x100, TWO32, c / 0x100_0000, c % 0x100_0000 * 0x100); }
    else if count == 2 { QuotientUnique(c * 0x1_0000, TWO32, c / 0x1_0000, c % 0x1_0000 * 0x1_0000); }
    else if count == 3 { QuotientUnique(c * 0x100_0000, TWO32, c / 0x100, c % 0x100 * 0x100_0000); }
  }

  lemma JoinIsSum(b: nat, c: nat, count: nat)
    requires count <= 3 && b < Place(count)
    ensures Joined(b, c, count) == b + Kept(c, count) * Place(count)
  {
    hide Or, Pow2, Kept, Place, Mod;
    Places(count);
    ShiftKeeps(c, count);
    OrDisjoint(b, Kept(c, count), 8 * count);
  }

  // The bytes of b + y*256^count, for each number of bytes already in the buffer.
  lemma Sum1(b: nat, y: nat)
    requires b < 0x100
    ensures var w := b + y * 0x100; Byte0(w) == Byte0(b) && Byte1(w) == Byte0(y) && (w < 0x1_0000 <==> y < 0x100)
  {
    assert (b + y * 0x100) / 0x100 == y;
  }

  lemma Sum2(b: nat, y: nat)
    requires b < 0x1_0000
    ensures var w := b + y * 0x1_0000; Byte0(w) == Byte0(b) && Byte1(w) == Byte1(b) && Byte2(w) == Byte0(y)
    ensures b + y * 0x1_0000 < 0x100_0000 <==> y < 0x100
  {
    assert (b + y * 0x1_0000) / 0x1_0000 == y;
    assert (b + y * 0x1_0000) / 0x100 == b / 0x100 + y * 0x100;
  }

  lemma Sum3(b: nat, y: nat)
    requires b < 0x100_0000
    ensures var w := b + y * 0x100_0000;
            Byte0(w) == Byte0(b) && Byte1(w) == Byte1(b) && Byte2(w) == Byte2(b) && Byte3(w) == Byte0(y)
  {
    assert (b + y * 0x100_0000) / 0x100_0000 == y;
    assert (b + y * 0x100_0000) / 0x1_0000 == b / 0x1_0000 + y * 0x100;
    assert (b + y * 0x100_0000) / 0x100 == b / 0x100 + y * 0x1_0000;
  }

  lemma DropMultiple(y: nat, k: nat)
    ensures Byte0(y + k * 0x100) == Byte0(y)
  {
  }

  lemma KeptByte(c: nat, count: nat)
    requires count <= 3
    ensures Byte0(Kept(c, count)) == Byte0(c)
  {
    hide Byte0;
    if count == 0 { DropMultiple(c % TWO32, c / TWO32 * 0x100_0000); }
    else if count == 1 { DropMultiple(c % 0x100_0000, c / 0x100_0000 * 0x1_0000); }
    else if count == 2 { DropMultiple(c % 0x1_0000, c / 0x1_0000 * 0x100); }
    else { DropMultiple(c % 0x100, c / 0x100); }
  }

  /** The bytes of the buffer once the character is in it; the buffer stays empty above them exactly
      when nothing of the character sticks out. */
  lemma JoinedBytes(s: State, c: nat)
    requires Valid(s)
    ensures var b := Joined(s.buffer, c, s.count);
            if s.count == 3 then Decode(W32(b)) == Pending(s) + [Byte0(c)]
            else && Pending(State(b, s.count + 1, s.log)) == Pending(s) + [Byte0(c)]
                 && (b < Place(s.count + 1) <==> Kept(c, s.count) < 0x100)
  {
    hide Joined, Kept, Byte0, Byte1, Byte2, Byte3;
    var y := Kept(c, s.count);
    JoinIsSum(s.buffer, c, s.count);
    KeptByte(c, s.count);
    if s.count == 3 { Sum3(s.buffer, y); }
    else if s.count == 2 { Sum2(s.buffer, y); }
    else if s.count == 1 { Sum1(s.buffer, y); }
  }

  lemma MaskedBytes(b: nat)
    ensures Byte0(b % 0x100) == Byte0(b % 0x1_0000) == Byte0(b) && Byte1(b % 0x1_0000) == Byte1(b)
    ensures Byte0(b / 0x1_0000 % 0x100) == Byte2(b)
  {
    hide Byte1;
    DropMultiple(b % 0x100, b / 0x100);
    DropMultiple(b % 0x1_0000, b / 0x1_0000 * 0x100);
    SecondByte(b);
  }

  lemma SecondByte(b: nat)
    ensures Byte1(b % 0x1_0000) == Byte1(b)
  {
    assert b / 0x100 == b % 0x1_0000 / 0x100 + b / 0x1_0000 * 0x100;
  }

  /** A flush writes the bytes of the buffer. */
  lemma FlushBytes(ws: seq<Write>, b: nat, count: nat)
    requires 1 <= count <= 3
    ensures DecodeAll(ws + Flush(b, count)) == DecodeAll(ws) + Pending(State(b, count, ws))
  {
    hide DecodeAll, Byte0, Byte1, Byte2, Byte3;
    MaskedBytes(b);
    if count == 3 {
      var w16, w8 := W16(b % 0x1_0000), W8(b / 0x1_0000 % 0x100);
      DecodeLast(ws, w16);
      DecodeLast(ws + [w16], w8);
      assert ws + Flush(b, 3) == ws + [w16] + [w8];
    } else if count == 2 {
      DecodeLast(ws, W16(b % 0x1_0000));
    } else {
      DecodeLast(ws, W8(b % 0x100));
    }
  }

  /** One character adds its low byte to the bytes written and waiting; the buffer stays sound exactly
      when the character is clean. */
  lemma Adds(s: State, c: nat)
    requires Valid(s)
    ensures Contents(AfterPut(s, c)) == Contents(s) + [Byte0(c)]
    ensures Valid(AfterPut(s, c)) <==> Clean(s, c)
  {
    hide Pending, Flush, Decode, DecodeAll, Kept, Joined;
    var b := Joined(s.buffer, c, s.count);
    JoinedBytes(s, c);
    Empty(AfterPut(s, c).log, c);
    if s.count == 3 {
      DecodeLast(s.log, W32(b));
    } else {
      FlushBytes(s.log, b, s.count + 1);
    }
  }

  lemma Empty(ws: seq<Write>, c: nat)
    ensures Pending(State(0, 0, ws)) == [] && Kept(c, 3) < 0x100
  {
  }

  // ---------------------------------------------------------------- streams

  function Run(stream: seq<nat>): (s: State)
    ensures s.count <= 3
  {
    if stream == [] then START else AfterPut(Run(stream[..|stream| - 1]), stream[|stream| - 1])
  }

  ghost predicate Bytes(stream: seq<nat>) {
    forall k :: 0 <= k < |stream| ==> stream[k] < 0x100
  }

  /** Whatever bytes are put, the writes decoded little-endian followed by the bytes still waiting are
      those bytes, at most three wait, and none after the end of a line. */
  lemma {:induction false} Conservation(stream: seq<nat>)
    requires Bytes(stream)
    ensures Valid(Run(stream)) && Contents(Run(stream)) == stream
    ensures stream != [] && (stream[|stream| - 1] == 10 || stream[|stream| - 1] == 13) ==>
              DecodeAll(Run(stream).log) == stream
  {
    hide AfterPut, Pending, DecodeAll;
    if stream != [] {
      var k := |stream| - 1;
      Conservation(stream[..k]);
      Adds(Run(stream[..k]), stream[k]);
      if EndsLine(stream[k]) { LineIsFlushed(Run(stream[..k]), stream[k]); }
      assert stream[..k] + [stream[k]] == stream;
    } else {
      Nothing();
    }
  }

  lemma Nothing()
    ensures Contents(START) == []
  {
  }

  lemma LineIsFlushed(s: State, c: nat)
    requires s.count <= 3 && EndsLine(c)
    ensures AfterPut(s, c).count == 0 && Contents(AfterPut(s, c)) == DecodeAll(AfterPut(s, c).log)
  {
    hide DecodeAll;
  }

  /** A character of more than one byte corrupts its successor: 'B' after 0x141 waits as 'C'. */
  lemma WideCharacterCorrupts()
    ensures Pending(AfterPut(START, 0x141)) == [0x41]
    ensures Pending(AfterPut(AfterPut(START, 0x141), 0x42)) == [0x41, 0x43]
  {
    hide Or, Kept;
    OrOfExample();
    assert Joined(0, 0x141, 0) == 0x141 && Joined(0x141, 0x42, 1) == 0x4341;
  }

  lemma OrOfExample()
    ensures Or(0, 0x141) == 0x141 && Or(0x141, 0x4200) == 0x4341
  {
    assert Or(0x1, 0x42) == 0x43;
    assert Or(0x2, 0x84) == 0x86;
    assert Or(0x5, 0x108) == 0x10D;
    assert Or(0xA, 0x210) == 0x21A;
    assert Or(0x14, 0x420) == 0x434;
    assert Or(0x28, 0x840) == 0x868;
    assert Or(0x50, 0x1080) == 0x10D0;
    assert Or(0xA0, 0x2100) == 0x21A0;
  }

  // ---------------------------------------------------------------- the driver

  class Driver {
    var buffer: nat
    var bytesInBuffer: nat
    var log: seq<Write>

    ghost function Value(): State
      reads this
    {
      State(buffer, bytesInBuffer, log)
    }

    constructor ()
      ensures Value() == START
    {
      buffer, bytesInBuffer, log := 0, 0, [];
    }

    method Putc(c: nat) returns (r: nat)
      requires bytesInBuffer <= 3
      modifies this
      ensures r == c && Value() == AfterPut(old(Value()), c)
      ensures bytesInBuffer == if old(bytesInBuffer) == 3 || c % 0x100 == 10 || c % 0x100 == 13 then 0
                               else old(bytesInBuffer) + 1
      ensures old(log) <= log && |log| - |old(log)| ==
                if old(bytesInBuffer) == 3 then 1
                else if c % 0x100 != 10 && c % 0x100 != 13 then 0
                else if old(bytesInBuffer) == 2 then 2 else 1
      ensures |log| > |old(log)| ==>
                var n := |old(log)|;
                match old(bytesInBuffer)
                case 0 => log[n].W8?
                case 1 => log[n].W16?
                case 2 => log[n].W16? && log[n + 1].W8?
                case _ => log[n].W32?
    {
      hide Joined;
      buffer := Joined(buffer, c, bytesInBuffer);
      bytesInBuffer := bytesInBuffer + 1;
      if bytesInBuffer >= 4 {
        log := log + [W32(buffer)];
        buffer := 0;
        bytesInBuffer := 0;
      } else if EndsLine(c) {
        match bytesInBuffer {
          case 3 =>
            log := log + [W16(buffer % 0x1_0000)];
            log := log + [W8(buffer / 0x1_0000 % 0x100)];
          case 2 =>
            log := log + [W16(buffer % 0x1_0000)];
          case _ =>
            log := log + [W8(buffer % 0x100)];
        }
        buffer := 0;
        bytesInBuffer := 0;
      }
      r := c;
    }
  }
}
