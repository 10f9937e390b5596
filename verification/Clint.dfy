/**
 The 64-bit machine timer behind 32-bit registers.  Other hardware ticks mtime between any two
 accesses, by any amount that does not wrap 64 bits; `seen` records every instant at which the
 timer interrupt could be observed.
 */
module Clint {

  const TWO32: nat := 0x1_0000_0000
  const TWO64: nat := 0x1_0000_0000_0000_0000

  /** What the interrupt comparator sees at one instant: it is pending when mtime >= mtimecmp. */
  datatype Instant = Instant(mtime: nat, mtimecmp: nat)

  ghost predicate Pending(t: Instant) { t.mtime >= t.mtimecmp }

  class Timer {
    var mtime: nat
    var mtimecmp: nat
    ghost var seen: seq<Instant>

    ghost predicate Valid()
      reads this
    {
      mtime < TWO64 && mtimecmp < TWO64
    }

    /** The counter advances on its own. */
    method Tick()
      requires Valid()
      modifies this
      ensures Valid() && old(mtime) <= mtime && mtimecmp == old(mtimecmp)
      ensures seen == old(seen) + [Instant(mtime, mtimecmp)]
    {
      var t: nat :| mtime <= t < TWO64;
      mtime := t;
      seen := seen + [Instant(mtime, mtimecmp)];
    }

    /** A 32-bit load of one half of mtime, some time after the previous access. */
    method ReadHigh() returns (w: nat)
      requires Valid()
      modifies this
      ensures Valid() && old(mtime) <= mtime && mtimecmp == old(mtimecmp)
      ensures w == mtime / TWO32
    {
      Tick();
      w := mtime / TWO32;
    }

    method ReadLow() returns (w: nat)
      requires Valid()
      modifies this
      ensures Valid() && old(mtime) <= mtime && mtimecmp == old(mtimecmp)
      ensures w == mtime % TWO32
    {
      Tick();
      w := mtime % TWO32;
    }

    /** The guarded two-word read: the value returned is the value mtime had at the instant `at` at
        which the low word was read, an instant within the call; and every pass but the last is paid
        for by a carry into the high word during the call. */
    method MtimeGet() returns (r: nat, ghost at: nat, ghost passes: nat)
      requires Valid()
      modifies this
      ensures Valid() && mtimecmp == old(mtimecmp)
      ensures r == at && old(mtime) <= at <= mtime
      ensures 1 <= passes <= 1 + mtime / TWO32 - old(mtime) / TWO32
    {
      var hi, lo, hi1;
      passes := 0;
      while true
        invariant Valid() && mtimecmp == old(mtimecmp) && old(mtime) <= mtime
        invariant passes <= mtime / TWO32 - old(mtime) / TWO32
        decreases TWO32 - mtime / TWO32
      {
        hi := ReadHigh();
        lo := ReadLow();
        at := mtime;
        hi1 := ReadHigh();
        passes := passes + 1;
        if hi1 == hi { break; }
      }
      r := hi * TWO32 + lo;
    }

    /** Two reads in a row never go backwards. */
    method SuccessiveReads() returns (first: nat, second: nat)
      requires Valid()
      modifies this
      ensures first <= second && old(mtime) <= first && second <= mtime
    {
      ghost var at, passes;
      first, at, passes := MtimeGet();
      second, at, passes := MtimeGet();
    }

    /** A 32-bit store to one half of mtimecmp, observable at once and while mtime goes on ticking. */
    method StoreCompare(high: bool, w: nat)
      requires Valid() && w < TWO32
      modifies this
      ensures Valid() && old(mtime) <= mtime
      ensures mtimecmp == if high then w * TWO32 + old(mtimecmp) % TWO32
                                  else old(mtimecmp) / TWO32 * TWO32 + w
      ensures old(seen) <= seen
      ensures forall k :: |old(seen)| <= k < |seen| ==> seen[k].mtimecmp == mtimecmp && seen[k].mtime <= mtime
      ensures |seen| > |old(seen)| && seen[|old(seen)|] == Instant(old(mtime), mtimecmp)
    {
      mtimecmp := if high then w * TWO32 + mtimecmp % TWO32 else mtimecmp / TWO32 * TWO32 + w;
      seen := seen + [Instant(mtime, mtimecmp)];
      Tick();
    }

    /** The guarded update.  The compare register takes three values in turn, from instants `first`,
        `second` and `third` on; at no instant is the interrupt pending unless mtime has reached the
        old or the new compare value, and afterwards the new value is in force. */
    method MtimecmpSet(time: nat) returns (ghost first: nat, ghost second: nat, ghost third: nat)
      requires Valid() && time < TWO64
      modifies this
      ensures Valid() && old(mtime) <= mtime && mtimecmp == time
      ensures old(seen) <= seen && |old(seen)| == first < second < third < |seen|
      ensures forall k :: first <= k < second ==> seen[k].mtimecmp == 0xFFFF_FFFF * TWO32 + old(mtimecmp) % TWO32
      ensures forall k :: second <= k < third ==> seen[k].mtimecmp == 0xFFFF_FFFF * TWO32 + time % TWO32
      ensures forall k :: third <= k < |seen| ==> seen[k].mtimecmp == time
      ensures forall k :: first <= k < |seen| && Pending(seen[k]) ==>
                seen[k].mtime >= old(mtimecmp) || seen[k].mtime >= time
    {
      first := |seen|;
      StoreCompare(true, 0xFFFF_FFFF);
      second := |seen|;
      StoreCompare(false, time % TWO32);
      third := |seen|;
      StoreCompare(true, time / TWO32);
    }
  }
}
