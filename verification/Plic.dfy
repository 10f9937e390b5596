/**
 The platform-level interrupt controller: one enable bit per hart context and interrupt source,
 seen as the set of (context, source) pairs that are enabled.
 */
module Plic {
  import opened Arith
  import opened Bits

  const MAX_INTERRUPTS: nat := 1024
  const WORDS: nat := 32
  /** -1 as an unsigned long of the 32-bit cores */
  const ALL_ONES: nat := 0xFFFF_FFFF

  // ---------------------------------------------------------------- the affinity mask

  /** The contexts whose bit is set in the mask, context 0 excepted. */
  ghost function Chosen(mask: nat): set<nat> {
    set c: nat | 1 <= c <= mask && Bit(mask, c)
  }

  /** The contexts the loop macro hands to its body, context 0 excepted: it runs on until no bit is
      left, without looking at the bit of the position it is at. */
  ghost function Visited(mask: nat): set<nat> {
    set c: nat | 1 <= c <= mask && Shr(mask, c) != 0
  }

  lemma {:induction false} ShrSmaller(w: nat, k: nat)
    ensures Shr(w, k) <= w && (Shr(w, k) != 0 ==> k < w || k == 0)
    ensures Bit(w, k) ==> Shr(w, k) != 0
  {
    if k > 0 { ShrSmaller(w / 2, k - 1); }
  }

  lemma {:induction false} ShrOfZero(k: nat)
    ensures Shr(0, k) == 0
  {
    if k > 0 { ShrOfZero(k - 1); }
  }

  /** Is w of the form 11...1 in binary? */
  predicate AllOnes(w: nat) {
    w == 0 || (w % 2 == 1 && AllOnes(w / 2))
  }

  lemma {:induction false} AllOnesIsPow2Minus1(w: nat)
    ensures AllOnes(w) <==> exists k: nat :: w + 1 == Pow2(k)
  {
    if w == 0 {
      assert w + 1 == Pow2(0);
    } else {
      AllOnesIsPow2Minus1(w / 2);
      if AllOnes(w) {
        var k: nat :| w / 2 + 1 == Pow2(k);
        assert w + 1 == Pow2(k + 1);
      }
      if k: nat :| w + 1 == Pow2(k) {
        assert k > 0;
        assert w / 2 + 1 == Pow2(k - 1);
      }
    }
  }

  lemma {:induction false} AllOnesHasNoHole(w: nat, k: nat)
    requires AllOnes(w) && Shr(w, k) != 0
    ensures Bit(w, k)
  {
    if w == 0 { ShrOfZero(k); }
    else if k > 0 { AllOnesHasNoHole(w / 2, k - 1); }
  }

  lemma {:induction false} NoHoleIsAllOnes(w: nat)
    requires forall k: nat :: Shr(w, k) != 0 ==> Bit(w, k)
    ensures AllOnes(w)
  {
    if w != 0 {
      assert Shr(w, 0) != 0;
      forall k: nat | Shr(w / 2, k) != 0 ensures Bit(w / 2, k) {
        assert Shr(w, k + 1) != 0;
      }
      NoHoleIsAllOnes(w / 2);
    }
  }

  /** The contexts visited are the contexts chosen exactly when the mask, its lowest bit apart, is a
      run of ones: mask/2 + 1 is a power of two. */
  lemma VisitedIsChosenIff(mask: nat)
    ensures Chosen(mask) <= Visited(mask)
    ensures Visited(mask) == Chosen(mask) <==> exists k: nat :: mask / 2 + 1 == Pow2(k)
  {
    forall c: nat | 1 <= c ensures Shr(mask, c) == Shr(mask / 2, c - 1) && (Bit(mask, c) <==> Bit(mask / 2, c - 1)) {
    }
    forall c: nat ensures Shr(mask, c) != 0 ==> c <= mask || c == 0 { ShrSmaller(mask, c); }
    forall c: nat ensures Bit(mask, c) ==> Shr(mask, c) != 0 { ShrSmaller(mask, c); }
    AllOnesIsPow2Minus1(mask / 2);
    if Visited(mask) == Chosen(mask) {
      forall k: nat | Shr(mask / 2, k) != 0 ensures Bit(mask / 2, k) {
        assert Shr(mask, k + 1) != 0;
        assert k + 1 in Visited(mask);
      }
      NoHoleIsAllOnes(mask / 2);
    } else if AllOnes(mask / 2) {
      var c :| c in Visited(mask) && c !in Chosen(mask);
      AllOnesHasNoHole(mask / 2, c - 1);
    }
  }

  /** A mask for context 2 alone also reaches context 1. */
  lemma HoleInMask()
    ensures Chosen(4) == {2} && Visited(4) == {1, 2}
  {
    assert Shr(4, 1) == 2 && Shr(4, 2) == 1 && Shr(4, 3) == 0;
    ShrOfZero(1);
    assert Shr(4, 4) == Shr(0, 1);
    assert !Bit(4, 1) && Bit(4, 2) && !Bit(4, 3) && !Bit(4, 4);
  }

  // ---------------------------------------------------------------- the controller

  /** What the driver registers for its line with a parent: no handler at first, then its own. */
  datatype Handler = None | Dispatch

  /** The calls the driver makes to its parent controllers. */
  datatype ParentCall = InitController(parent: nat) | Register(parent: nat, line: int, handler: Handler)
                      | EnableLine(parent: nat, line: int)

  /** Every parent is initialised, given the handler on the line it has for this controller, and has
      that line enabled: in this order, one parent after the other. */
  function Hookups(lines: seq<int>, n: nat): (calls: seq<ParentCall>)
    requires n <= |lines|
    ensures |calls| == 4 * n
  {
    if n == 0 then []
    else Hookups(lines, n - 1) + [InitController(n - 1), Register(n - 1, lines[n - 1], None),
                                  Register(n - 1, lines[n - 1], Dispatch), EnableLine(n - 1, lines[n - 1])]
  }

  /** Parent k is initialised first; its line is registered without a handler, then with the driver's own, and
      enabled last. */
  lemma {:induction false} HookupsMeans(lines: seq<int>, n: nat, k: nat)
    requires k < n <= |lines|
    ensures var calls := Hookups(lines, n);
            && calls[4 * k] == InitController(k) && calls[4 * k + 1] == Register(k, lines[k], None)
            && calls[4 * k + 2] == Register(k, lines[k], Dispatch) && calls[4 * k + 3] == EnableLine(k, lines[k])
  {
    if k < n - 1 { HookupsMeans(lines, n - 1, k); }
  }

  class Plic {
    const contexts: nat
    const numInterrupts: nat
    const maxPriority: nat
    const enable: array2<nat>
    const threshold: array<nat>
    const priority: array<nat>
    // The interrupt tables; 0 stands for NULL.
    const handler: array<nat>
    const subInterrupt: array<nat>
    const data: array<nat>
    const lines: seq<int>
    var initDone: bool
    var log: seq<ParentCall>

    ghost predicate Ok() {
      && enable.Length0 == threshold.Length == contexts && enable.Length1 == WORDS
      && priority.Length == MAX_INTERRUPTS && numInterrupts <= MAX_INTERRUPTS
      && handler.Length == subInterrupt.Length == data.Length == numInterrupts
      && threshold != priority && threshold !in Tables() && priority !in Tables()
      && handler != subInterrupt && handler != data && subInterrupt != data
    }

    ghost function Tables(): set<array<nat>> { {handler, subInterrupt, data} }

    ghost predicate TablesEmpty(n: nat)
      requires Ok()
      reads Tables()
    {
      forall i :: 0 <= i < n && i < numInterrupts ==> handler[i] == 0 && subInterrupt[i] == 0 && data[i] == 0
    }

    /** The enabled (context, source) pairs. */
    ghost function Pairs(): set<(nat, nat)>
      requires Ok()
      reads enable
    {
      set c: nat, i: nat | 0 <= c < contexts && 0 <= i < MAX_INTERRUPTS && Bit(enable[c, i / 32], i % 32) :: (c, i)
    }

    /** Source i has bit i % 32 of word i / 32 of its context. */
    lemma PairsMean(c: nat, i: nat)
      requires Ok() && c < contexts && i < MAX_INTERRUPTS
      ensures (c, i) in Pairs() <==> Div(enable[c, i / 32], Pow2(i % 32)) % 2 == 1
    {
      ShrIsDiv(enable[c, i / 32], i % 32);
    }

    method Enable(context: nat, id: nat, on: bool)
      requires Ok() && context < contexts && id < MAX_INTERRUPTS
      modifies enable
      ensures Pairs() == if on then old(Pairs()) + {(context, id)} else old(Pairs()) - {(context, id)}
    {
      var current, bit := enable[context, id / 32], id % 32;
      enable[context, id / 32] := if on then Or(current, Pow2(bit)) else AndNot(current, Pow2(bit));
      forall c: nat, i: nat | c < contexts && i < MAX_INTERRUPTS
        ensures (c, i) in Pairs() <==> if (c, i) == (context, id) then on else (c, i) in old(Pairs())
      {
        OrBit(current, Pow2(bit), i % 32);
        AndNotBit(current, Pow2(bit), i % 32);
        Pow2Bit(bit, i % 32);
      }
    }

    method SetPriority(id: nat, p: nat) returns (rc: int)
      requires Ok() && id < MAX_INTERRUPTS
      modifies priority
      ensures rc == if p < maxPriority then 0 else -1
      ensures priority[..] == if rc == 0 then old(priority[..])[id := p] else old(priority[..])
    {
      rc := -1;
      if maxPriority != 0 && p < maxPriority {
        priority[id] := p;
        rc := 0;
      }
    }

    /** Either affinity call, up to its last argument to the enable routine: out-of-range sources are
        refused, and otherwise the source is switched in every visited context and in no other. */
    method AffinitySwitch(mask: nat, id: nat, on: bool) returns (ret: nat)
      requires Ok() && forall c :: c in Visited(mask) ==> c < contexts
      modifies enable
      ensures id >= numInterrupts ==> ret == ALL_ONES && Pairs() == old(Pairs())
      ensures id < numInterrupts ==> ret == 0
      ensures id < numInterrupts ==>
                var pairs := set c | c in Visited(mask) :: (c, id);
                Pairs() == if on then old(Pairs()) + pairs else old(Pairs()) - pairs
    {
      ret := 0;
      if id >= numInterrupts { return ALL_ONES; }
      var context, rest := 0, mask;
      ghost var done: set<(nat, nat)> := {};
      while rest != 0
        invariant rest == Shr(mask, context) && ret == 0
        invariant done == set c | c in Visited(mask) && c < context :: (c, id)
        invariant Pairs() == if on then old(Pairs()) + done else old(Pairs()) - done
        decreases rest
      {
        if context != 0 {
          ShrSmaller(mask, context);
          assert context in Visited(mask);
          Enable(context, id, on);
          done := done + {(context, id)};
        }
        ShrStep(mask, context);
        context := context + 1;
        rest := rest / 2;
      }
      forall c: nat | c in Visited(mask) ensures c < context {
        if c >= context { ShrAddZero(mask, context, c); }
      }
    }

    /** The first call empties the enabled set and the threshold of every parent context, the
        priorities and the interrupt tables, and hooks the driver up with every parent. */
    method Init(parents: nat)
      requires Ok() && parents <= contexts && parents <= |lines|
      modifies this, enable, threshold, priority, Tables()
      ensures initDone
      ensures old(initDone) ==> log == old(log) && Pairs() == old(Pairs()) && unchanged(threshold, priority, Tables())
      ensures !old(initDone) ==> log == old(log) + Hookups(lines, parents)
      ensures !old(initDone) ==> Pairs() == set p | p in old(Pairs()) && p.0 >= parents
      ensures !old(initDone) ==> forall c :: 0 <= c < contexts ==> threshold[c] == if c < parents then 0 else old(threshold[c])
      ensures !old(initDone) && parents > 0 ==> TablesEmpty(numInterrupts)
      ensures !old(initDone) && parents > 0 && maxPriority > 0 ==> forall i :: 0 <= i < numInterrupts ==> priority[i] == 0
    {
      if !initDone {
        var parent := 0;
        while parent < parents
          invariant 0 <= parent <= parents && initDone == old(initDone)
          invariant log == old(log) + Hookups(lines, parent)
          invariant Pairs() == set p | p in old(Pairs()) && p.0 >= parent
          invariant forall c :: 0 <= c < contexts ==> threshold[c] == if c < parent then 0 else old(threshold[c])
          invariant parent > 0 ==> TablesEmpty(numInterrupts)
          invariant parent > 0 && maxPriority > 0 ==> forall i :: 0 <= i < numInterrupts ==> priority[i] == 0
        {
          log := log + [InitController(parent)];
          InitParent(parent);
          threshold[parent] := 0;
          log := log + [Register(parent, lines[parent], None)];
          log := log + [Register(parent, lines[parent], Dispatch)];
          log := log + [EnableLine(parent, lines[parent])];
          parent := parent + 1;
        }
        initDone := true;
      }
    }

    method InitParent(parent: nat)
      requires Ok() && parent < contexts
      modifies enable, priority, Tables()
      ensures Pairs() == set p | p in old(Pairs()) && p.0 != parent
      ensures TablesEmpty(numInterrupts)
      ensures maxPriority > 0 ==> forall i :: 0 <= i < numInterrupts ==> priority[i] == 0
    {
      var i := 0;
      while i < MAX_INTERRUPTS
        invariant 0 <= i <= MAX_INTERRUPTS
        invariant Pairs() == set p | p in old(Pairs()) && !(p.0 == parent && p.1 < i)
        invariant TablesEmpty(i)
        invariant maxPriority > 0 ==> forall k :: 0 <= k < i && k < numInterrupts ==> priority[k] == 0
      {
        Enable(parent, i, false);
        if i < numInterrupts {
          var rc := SetPriority(i, 0);
          handler[i] := 0;
          subInterrupt[i] := 0;
          data[i] := 0;
        }
        i := i + 1;
      }
    }
  }

  lemma ShrAddZero(w: nat, m: nat, k: nat)
    requires Shr(w, m) == 0 && m <= k
    ensures Shr(w, k) == 0
    decreases k
  {
    if m < k {
      ShrAddZero(w, m, k - 1);
      ShrStep(w, k - 1);
    }
  }
}
