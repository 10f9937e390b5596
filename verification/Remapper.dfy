/**
 The address remapper: seven 32-bit valid registers and a pair of address registers per entry,
 each write of which the device accepts only directly after its key has been written.
 */
module Remapper {
  import opened Arith
  import opened Bits

  const VALID_REGS: nat := 7
  const ENTRIES: nat := 224
  const KEY: nat := 0x51f15e
  const TWO32: nat := 0x1_0000_0000

  /** Writes on the bus, in order. */
  datatype Write = KeyWrite(key: nat) | Valid(reg: nat, value: nat) | From(entry: nat, value: nat) | To(entry: nat, value: nat)

  /** Every register write directly follows a write of the key. */
  ghost predicate Keyed(log: seq<Write>) {
    forall k :: 0 <= k < |log| && !log[k].KeyWrite? ==> k > 0 && log[k - 1] == KeyWrite(KEY)
  }

  ghost predicate Index(i: int) { 0 <= i < ENTRIES }

  ghost predicate Indices(idxs: seq<int>) { forall n :: 0 <= n < |idxs| ==> Index(idxs[n]) }

  // ---------------------------------------------------------------- one entry at a time

  function EnableOne(words: seq<nat>, idx: int): (r: seq<nat>)
    requires |words| == VALID_REGS && Index(idx)
    ensures |r| == VALID_REGS
  {
    words[idx / 32 := Or(words[idx / 32], Pow2(idx % 32))]
  }

  function DisableOne(words: seq<nat>, idx: int): (r: seq<nat>)
    requires |words| == VALID_REGS && Index(idx)
    ensures |r| == VALID_REGS
  {
    words[idx / 32 := AndNot(words[idx / 32], Pow2(idx % 32))]
  }

  function EnableAll(words: seq<nat>, idxs: seq<int>): (r: seq<nat>)
    requires |words| == VALID_REGS && Indices(idxs)
    ensures |r| == VALID_REGS
  {
    if idxs == [] then words else EnableOne(EnableAll(words, idxs[..|idxs| - 1]), idxs[|idxs| - 1])
  }

  function DisableAll(words: seq<nat>, idxs: seq<int>): (r: seq<nat>)
    requires |words| == VALID_REGS && Indices(idxs)
    ensures |r| == VALID_REGS
  {
    if idxs == [] then words else DisableOne(DisableAll(words, idxs[..|idxs| - 1]), idxs[|idxs| - 1])
  }

  function Zeros(): (r: seq<nat>)
    ensures |r| == VALID_REGS
  {
    seq(VALID_REGS, _ => 0)
  }

  ghost predicate Selects(idxs: seq<int>, j: nat, k: nat) {
    exists n :: 0 <= n < |idxs| && idxs[n] / 32 == j && idxs[n] % 32 == k
  }

  lemma SelectsLast(idxs: seq<int>, j: nat, k: nat)
    requires idxs != []
    ensures var m := |idxs| - 1;
            Selects(idxs, j, k) <==> Selects(idxs[..m], j, k) || (idxs[m] / 32 == j && idxs[m] % 32 == k)
  {
    var m := |idxs| - 1;
    if Selects(idxs, j, k) {
      var n :| 0 <= n < |idxs| && idxs[n] / 32 == j && idxs[n] % 32 == k;
      assert n < m ==> idxs[..m][n] == idxs[n];
    }
    if Selects(idxs[..m], j, k) {
      var n :| 0 <= n < m && idxs[..m][n] / 32 == j && idxs[..m][n] % 32 == k;
      assert idxs[n] / 32 == j;
    }
  }

  lemma {:induction false} EnableAllBit(words: seq<nat>, idxs: seq<int>, j: nat, k: nat)
    requires |words| == VALID_REGS && Indices(idxs) && j < VALID_REGS
    ensures Bit(EnableAll(words, idxs)[j], k) <==> Bit(words[j], k) || Selects(idxs, j, k)
  {
    if idxs != [] {
      var m := |idxs| - 1;
      EnableAllBit(words, idxs[..m], j, k);
      SelectsLast(idxs, j, k);
      OrBit(EnableAll(words, idxs[..m])[j], Pow2(idxs[m] % 32), k);
      Pow2Bit(idxs[m] % 32, k);
    }
  }

  lemma {:induction false} DisableAllBit(words: seq<nat>, idxs: seq<int>, j: nat, k: nat)
    requires |words| == VALID_REGS && Indices(idxs) && j < VALID_REGS
    ensures Bit(DisableAll(words, idxs)[j], k) <==> Bit(words[j], k) && !Selects(idxs, j, k)
  {
    if idxs != [] {
      var m := |idxs| - 1;
      DisableAllBit(words, idxs[..m], j, k);
      SelectsLast(idxs, j, k);
      AndNotBit(DisableAll(words, idxs[..m])[j], Pow2(idxs[m] % 32), k);
      Pow2Bit(idxs[m] % 32, k);
    }
  }

  /** Collecting all bits first and merging each register once is the same as enabling the entries one
      after the other, duplicates included. */
  lemma BatchEnable(words: seq<nat>, idxs: seq<int>, j: nat)
    requires |words| == VALID_REGS && Indices(idxs) && j < VALID_REGS
    ensures EnableAll(words, idxs)[j] == Or(words[j], EnableAll(Zeros(), idxs)[j])
  {
    var mask := EnableAll(Zeros(), idxs)[j];
    forall k: nat ensures Bit(EnableAll(words, idxs)[j], k) <==> Bit(Or(words[j], mask), k) {
      EnableAllBit(words, idxs, j, k);
      EnableAllBit(Zeros(), idxs, j, k);
      ZeroHasNoBits(k);
      OrBit(words[j], mask, k);
    }
    SameBits(EnableAll(words, idxs)[j], Or(words[j], mask));
  }

  lemma BatchDisable(words: seq<nat>, idxs: seq<int>, j: nat)
    requires |words| == VALID_REGS && Indices(idxs) && j < VALID_REGS
    ensures DisableAll(words, idxs)[j] == AndNot(words[j], EnableAll(Zeros(), idxs)[j])
  {
    var mask := EnableAll(Zeros(), idxs)[j];
    forall k: nat ensures Bit(DisableAll(words, idxs)[j], k) <==> Bit(AndNot(words[j], mask), k) {
      DisableAllBit(words, idxs, j, k);
      EnableAllBit(Zeros(), idxs, j, k);
      ZeroHasNoBits(k);
      AndNotBit(words[j], mask, k);
    }
    SameBits(DisableAll(words, idxs)[j], AndNot(words[j], mask));
  }

  // ---------------------------------------------------------------- what it means

  /** The entries that the registers mark valid. */
  ghost function Enabled(words: seq<nat>): set<int>
    requires |words| == VALID_REGS
  {
    set i | 0 <= i < ENTRIES && Bit(words[i / 32], i % 32)
  }

  lemma EnableIsUnion(words: seq<nat>, idxs: seq<int>)
    requires |words| == VALID_REGS && Indices(idxs)
    ensures Enabled(EnableAll(words, idxs)) == Enabled(words) + (set i | i in idxs)
  {
    forall i | 0 <= i < ENTRIES
      ensures i in Enabled(EnableAll(words, idxs)) <==> i in Enabled(words) || i in idxs
    {
      EnableAllBit(words, idxs, i / 32, i % 32);
      SelectsIsMember(idxs, i);
    }
  }

  lemma DisableIsDifference(words: seq<nat>, idxs: seq<int>)
    requires |words| == VALID_REGS && Indices(idxs)
    ensures Enabled(DisableAll(words, idxs)) == Enabled(words) - (set i | i in idxs)
  {
    forall i | 0 <= i < ENTRIES
      ensures i in Enabled(DisableAll(words, idxs)) <==> i in Enabled(words) && i !in idxs
    {
      DisableAllBit(words, idxs, i / 32, i % 32);
      SelectsIsMember(idxs, i);
    }
  }

  /** The same, entry by entry. */
  lemma EveryBit(words: seq<nat>, idxs: seq<int>)
    requires |words| == VALID_REGS && Indices(idxs)
    ensures forall i :: 0 <= i < ENTRIES ==>
              && (Bit(EnableAll(words, idxs)[i / 32], i % 32) <==> Bit(words[i / 32], i % 32) || i in idxs)
              && (Bit(DisableAll(words, idxs)[i / 32], i % 32) <==> Bit(words[i / 32], i % 32) && i !in idxs)
  {
    hide Bit, EnableAll, DisableAll, Selects;
    forall i | 0 <= i < ENTRIES
      ensures Bit(EnableAll(words, idxs)[i / 32], i % 32) <==> Bit(words[i / 32], i % 32) || i in idxs
      ensures Bit(DisableAll(words, idxs)[i / 32], i % 32) <==> Bit(words[i / 32], i % 32) && i !in idxs
    {
      EnableAllBit(words, idxs, i / 32, i % 32);
      DisableAllBit(words, idxs, i / 32, i % 32);
      SelectsIsMember(idxs, i);
    }
  }

  lemma OneBit(words: seq<nat>, idx: int)
    requires |words| == VALID_REGS && Index(idx)
    ensures forall i :: 0 <= i < ENTRIES ==>
              && (Bit(EnableOne(words, idx)[i / 32], i % 32) <==> Bit(words[i / 32], i % 32) || i == idx)
              && (Bit(DisableOne(words, idx)[i / 32], i % 32) <==> Bit(words[i / 32], i % 32) && i != idx)
  {
    hide Bit;
    forall i | 0 <= i < ENTRIES
      ensures Bit(EnableOne(words, idx)[i / 32], i % 32) <==> Bit(words[i / 32], i % 32) || i == idx
      ensures Bit(DisableOne(words, idx)[i / 32], i % 32) <==> Bit(words[i / 32], i % 32) && i != idx
    {
      OrBit(words[idx / 32], Pow2(idx % 32), i % 32);
      AndNotBit(words[idx / 32], Pow2(idx % 32), i % 32);
      Pow2Bit(idx % 32, i % 32);
    }
  }

  lemma SelectsIsMember(idxs: seq<int>, i: int)
    requires Indices(idxs) && Index(i)
    ensures Selects(idxs, i / 32, i % 32) <==> i in idxs
  {
    if i in idxs {
      var n :| 0 <= n < |idxs| && idxs[n] == i;
      assert idxs[n] / 32 == i / 32;
    }
  }

  // ---------------------------------------------------------------- the driver

  datatype Entry = Entry(idx: nat, fromAddr: nat, toAddr: nat)

  ghost predicate Entries(es: seq<Entry>) { forall n :: 0 <= n < |es| ==> es[n].idx < ENTRIES }

  /** The two address registers of an entry, each the low 32 bits of the address. */
  function Program(from: seq<nat>, to: seq<nat>, es: seq<Entry>): (r: (seq<nat>, seq<nat>))
    requires |from| == |to| == ENTRIES && Entries(es)
    ensures |r.0| == |r.1| == ENTRIES
  {
    if es == [] then (from, to)
    else
      var r, e := Program(from, to, es[..|es| - 1]), es[|es| - 1];
      (r.0[e.idx := e.fromAddr % TWO32], r.1[e.idx := e.toAddr % TWO32])
  }

  /** Of several settings of one entry the last wins, and entries not mentioned keep theirs. */
  lemma {:induction false} LastWins(from: seq<nat>, to: seq<nat>, es: seq<Entry>, i: nat)
    requires |from| == |to| == ENTRIES && Entries(es) && i < ENTRIES
    ensures var r := Program(from, to, es);
            && ((forall n :: 0 <= n < |es| ==> es[n].idx != i) ==> r.0[i] == from[i] && r.1[i] == to[i])
            && forall n :: 0 <= n < |es| && es[n].idx == i && (forall m :: n < m < |es| ==> es[m].idx != i) ==>
                 r.0[i] == es[n].fromAddr % TWO32 && r.1[i] == es[n].toAddr % TWO32
  {
    if es != [] {
      var k := |es| - 1;
      LastWins(from, to, es[..k], i);
      assert forall n :: 0 <= n < k ==> es[..k][n] == es[n];
    }
  }

  class Device {
    const valid: array<nat>
    const from: array<nat>
    const to: array<nat>
    var armed: bool
    ghost var log: seq<Write>

    /** The registers are three separate blocks; `armed` says that the last write was the key. */
    ghost predicate Ok()
      reads this
    {
      && valid.Length == VALID_REGS && from.Length == to.Length == ENTRIES
      && valid != from && valid != to && from != to
      && Keyed(log)
      && (armed ==> log != [] && log[|log| - 1] == KeyWrite(KEY))
    }

    method WriteKey()
      requires Ok()
      modifies this
      ensures Ok() && armed && log == old(log) + [KeyWrite(KEY)]
    {
      log := log + [KeyWrite(KEY)];
      armed := true;
    }

    /** The block a register write goes to, its position there, and its value. */
    function Block(w: Write): array<nat>
      requires !w.KeyWrite?
    {
      if w.Valid? then valid else if w.From? then from else to
    }

    function Place(w: Write): nat
      requires !w.KeyWrite?
    {
      if w.Valid? then w.reg else w.entry
    }

    /** A register write; the device drops it unless it has just been given the key. */
    method WriteReg(w: Write)
      requires Ok() && !w.KeyWrite? && Place(w) < Block(w).Length
      modifies this, Block(w)
      ensures old(armed) ==> Ok()
      ensures !armed && log == old(log) + [w]
      ensures Block(w)[..] == if old(armed) then old(Block(w)[..])[Place(w) := w.value] else old(Block(w)[..])
    {
      if armed { Block(w)[Place(w)] := w.value; }
      armed := false;
      log := log + [w];
    }

    method EnableRemap(idx: int)
      requires Ok() && Index(idx)
      modifies this, valid
      ensures Ok() && valid[..] == EnableOne(old(valid[..]), idx)
      ensures forall i :: 0 <= i < ENTRIES ==>
                (Bit(valid[i / 32], i % 32) <==> Bit(old(valid[i / 32]), i % 32) || i == idx)
      ensures log == old(log) + [KeyWrite(KEY), Valid(idx / 32, valid[idx / 32])]
    {
      OneBit(old(valid[..]), idx);
      var reg, bit := idx / 32, idx % 32;
      WriteKey();
      var v := Or(valid[reg], Pow2(bit));
      WriteReg(Valid(reg, v));
    }

    method DisableRemap(idx: int)
      requires Ok() && Index(idx)
      modifies this, valid
      ensures Ok() && valid[..] == DisableOne(old(valid[..]), idx)
      ensures forall i :: 0 <= i < ENTRIES ==>
                (Bit(valid[i / 32], i % 32) <==> Bit(old(valid[i / 32]), i % 32) && i != idx)
      ensures log == old(log) + [KeyWrite(KEY), Valid(idx / 32, valid[idx / 32])]
    {
      OneBit(old(valid[..]), idx);
      var reg, bit := idx / 32, idx % 32;
      WriteKey();
      var v := AndNot(valid[reg], Pow2(bit));
      WriteReg(Valid(reg, v));
    }

    /** The bitmap of a batch: one bit per index, whatever their order and number. */
    static method Collect(idxs: seq<int>) returns (mask: array<nat>)
      requires Indices(idxs)
      ensures fresh(mask) && mask[..] == EnableAll(Zeros(), idxs)
    {
      hide Or, Pow2;
      mask := new nat[VALID_REGS](_ => 0);
      assert mask[..] == Zeros();
      var i := 0;
      assert idxs[..0] == [];
      while i < |idxs|
        invariant 0 <= i <= |idxs|
        invariant mask[..] == EnableAll(Zeros(), idxs[..i])
      {
        var reg, bit := idxs[i] / 32, idxs[i] % 32;
        assert idxs[..i + 1][..i] == idxs[..i];
        mask[reg] := Or(mask[reg], Pow2(bit));
        i := i + 1;
      }
      assert idxs[..|idxs|] == idxs;
    }

    method EnableRemaps(idxs: seq<int>)
      requires Ok() && Indices(idxs)
      modifies this, valid
      ensures Ok() && valid[..] == EnableAll(old(valid[..]), idxs)
      ensures forall i :: 0 <= i < ENTRIES ==>
                (Bit(valid[i / 32], i % 32) <==> Bit(old(valid[i / 32]), i % 32) || i in idxs)
      ensures old(log) <= log && |log| == |old(log)| + 2 * VALID_REGS
      ensures forall j :: |old(log)| <= j < |log| && (j - |old(log)|) % 2 == 1 ==>
                var reg := (j - |old(log)|) / 2; log[j] == Valid(reg, valid[reg])
    {
      hide Or, EnableAll, Bit;
      EveryBit(old(valid[..]), idxs);
      var enables := Collect(idxs);
      var i := 0;
      while i < VALID_REGS
        invariant 0 <= i <= VALID_REGS && Ok()
        invariant enables[..] == EnableAll(Zeros(), idxs)
        invariant forall j :: 0 <= j < VALID_REGS ==>
                    valid[j] == if j < i then EnableAll(old(valid[..]), idxs)[j] else old(valid[j])
        invariant old(log) <= log && |log| == |old(log)| + 2 * i
        invariant forall j :: |old(log)| <= j < |log| && (j - |old(log)|) % 2 == 1 ==>
                    var reg := (j - |old(log)|) / 2; log[j] == Valid(reg, valid[reg])
      {
        var v := valid[i];
        WriteKey();
        BatchEnable(old(valid[..]), idxs, i);
        var w := Or(v, enables[i]);
        WriteReg(Valid(i, w));
        i := i + 1;
      }
    }

    method DisableRemaps(idxs: seq<int>)
      requires Ok() && Indices(idxs)
      modifies this, valid
      ensures Ok() && valid[..] == DisableAll(old(valid[..]), idxs)
      ensures forall i :: 0 <= i < ENTRIES ==>
                (Bit(valid[i / 32], i % 32) <==> Bit(old(valid[i / 32]), i % 32) && i !in idxs)
      ensures old(log) <= log && |log| == |old(log)| + 2 * VALID_REGS
      ensures forall j :: |old(log)| <= j < |log| && (j - |old(log)|) % 2 == 1 ==>
                var reg := (j - |old(log)|) / 2; log[j] == Valid(reg, valid[reg])
    {
      hide AndNot, EnableAll, DisableAll, Bit;
      EveryBit(old(valid[..]), idxs);
      var disables := Collect(idxs);
      var i := 0;
      while i < VALID_REGS
        invariant 0 <= i <= VALID_REGS && Ok()
        invariant disables[..] == EnableAll(Zeros(), idxs)
        invariant forall j :: 0 <= j < VALID_REGS ==>
                    valid[j] == if j < i then DisableAll(old(valid[..]), idxs)[j] else old(valid[j])
        invariant old(log) <= log && |log| == |old(log)| + 2 * i
        invariant forall j :: |old(log)| <= j < |log| && (j - |old(log)|) % 2 == 1 ==>
                    var reg := (j - |old(log)|) / 2; log[j] == Valid(reg, valid[reg])
      {
        var v := valid[i];
        WriteKey();
        BatchDisable(old(valid[..]), idxs, i);
        var w := AndNot(v, disables[i]);
        WriteReg(Valid(i, w));
        i := i + 1;
      }
    }

    method SetValid(idx: int, val: nat) returns (rc: int)
      requires Ok()
      modifies this, valid
      ensures Ok() && rc == if 0 <= idx < VALID_REGS then 0 else 1
      ensures valid[..] == if rc == 0 then old(valid[..])[idx := val] else old(valid[..])
      ensures log == old(log) + if rc == 0 then [KeyWrite(KEY), Valid(idx, val)] else []
    {
      if idx < 0 || idx >= VALID_REGS { return 1; }
      WriteKey();
      WriteReg(Valid(idx, val));
      rc := 0;
    }

    method SetRemap(e: Entry)
      requires Ok() && e.idx < ENTRIES
      modifies this, from, to
      ensures Ok()
      ensures from[..] == old(from[..])[e.idx := e.fromAddr % TWO32]
      ensures to[..] == old(to[..])[e.idx := e.toAddr % TWO32]
      ensures log == old(log) + [KeyWrite(KEY), From(e.idx, e.fromAddr % TWO32), KeyWrite(KEY), To(e.idx, e.toAddr % TWO32)]
    {
      WriteKey();
      WriteReg(From(e.idx, e.fromAddr % TWO32));
      WriteKey();
      WriteReg(To(e.idx, e.toAddr % TWO32));
    }

    method SetRemaps(es: seq<Entry>)
      requires Ok() && Entries(es)
      modifies this, from, to
      ensures Ok() && (from[..], to[..]) == Program(old(from[..]), old(to[..]), es)
      ensures old(log) <= log && |log| == |old(log)| + 4 * |es|
    {
      var i := 0;
      while i < |es|
        invariant 0 <= i <= |es| && Ok()
        invariant (from[..], to[..]) == Program(old(from[..]), old(to[..]), es[..i])
        invariant old(log) <= log && |log| == |old(log)| + 4 * i
      {
        assert es[..i + 1][..i] == es[..i];
        SetRemap(es[i]);
        i := i + 1;
      }
      assert es[..|es|] == es;
    }
  }
}
