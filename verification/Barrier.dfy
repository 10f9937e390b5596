/**
 The start-up barrier between hart 0 and harts 1..N-1 over the shared MSIP words.

 Every hart runs the barrier any number of times in a row.  One step of the machine is one
 shared-memory access of one hart (or its call of the barrier), and a schedule is the sequence
 of harts in the order in which they take steps: quantifying over schedules is quantifying over
 all interleavings.
 */
module Barrier {
  import opened Arith

  /** Where a hart is: between two calls, in one of hart 0's two loops, or about to store or
      poll its own MSIP word. */
  datatype Pc = Outside | WaitFor(i: nat) | ClearAt(i: nat) | Announce | Poll

  /** `entered` and `left` count the calls each hart has made and has returned from. */
  datatype State = State(msip: seq<int>, pc: seq<Pc>, entered: seq<nat>, left: seq<nat>)

  ghost predicate Shape(s: State) {
    && 2 <= |s.msip| == |s.pc| == |s.entered| == |s.left|
    && (forall h :: 1 <= h < |s.pc| ==> s.pc[h].Outside? || s.pc[h].Announce? || s.pc[h].Poll?)
    && (s.pc[0].WaitFor? || s.pc[0].ClearAt? ==> 1 <= s.pc[0].i < |s.msip|)
    && !s.pc[0].Announce? && !s.pc[0].Poll?
  }

  function Init(n: nat): (s: State)
    requires 2 <= n
    ensures Inv(s)
  {
    State(seq(n, _ => 0), seq(n, _ => Outside), seq(n, _ => 0), seq(n, _ => 0))
  }

  /** One step of hart `h`. */
  function Next(s: State, h: nat): (s': State)
    requires Shape(s) && h < |s.msip|
    ensures Shape(s') && |s'.msip| == |s.msip|
  {
    var n := |s.msip|;
    match s.pc[h]
    case Outside =>
      s.(pc := s.pc[h := if h == 0 then WaitFor(1) else Announce], entered := s.entered[h := s.entered[h] + 1])
    case WaitFor(i) =>
      if s.msip[i] == 0 then s
      else s.(pc := s.pc[h := if i + 1 < n then WaitFor(i + 1) else ClearAt(1)])
    case ClearAt(i) =>
      var t := s.(msip := s.msip[i := 0]);
      if i + 1 < n then t.(pc := t.pc[h := ClearAt(i + 1)]) else Leave(t, h)
    case Announce =>
      s.(msip := s.msip[h := 1], pc := s.pc[h := Poll])
    case Poll =>
      if s.msip[h] == 1 then s else Leave(s, h)
  }

  function Leave(s: State, h: nat): State
    requires h < |s.pc| && h < |s.left|
  {
    s.(pc := s.pc[h := Outside], left := s.left[h := s.left[h] + 1])
  }

  ghost predicate Harts(schedule: seq<nat>, n: nat) {
    forall k :: 0 <= k < |schedule| ==> schedule[k] < n
  }

  function Run(s: State, schedule: seq<nat>): (s': State)
    requires Shape(s) && Harts(schedule, |s.msip|)
    ensures Shape(s') && |s'.msip| == |s.msip|
  {
    if schedule == [] then s
    else
      var k := |schedule| - 1;
      Next(Run(s, schedule[..k]), schedule[k])
  }

  // ---------------------------------------------------------------- the inductive invariant

  /** How many times hart 0 has cleared the word of hart `i`. */
  ghost function Clears(s: State, i: nat): nat
    requires Shape(s)
  {
    if s.pc[0].ClearAt? && i < s.pc[0].i then s.left[0] + 1 else s.left[0]
  }

  ghost predicate HartInv(s: State, i: nat)
    requires Shape(s) && 1 <= i < |s.msip|
  {
    && s.entered[i] == (if s.pc[i].Outside? then s.left[i] else s.left[i] + 1)
    && (!s.pc[i].Poll? ==> s.msip[i] == 0 && s.left[i] == Clears(s, i))
    && (s.pc[i].Poll? ==>
          || (s.msip[i] == 1 && s.left[i] == Clears(s, i))
          || (s.msip[i] == 0 && s.left[i] + 1 == Clears(s, i)))
    && (s.pc[0].WaitFor? && i < s.pc[0].i ==> s.pc[i].Poll? && s.msip[i] == 1)
    && (s.pc[0].ClearAt? && s.pc[0].i <= i ==> s.pc[i].Poll? && s.msip[i] == 1)
  }

  ghost predicate Inv(s: State) {
    && Shape(s)
    && s.entered[0] == (if s.pc[0].Outside? then s.left[0] else s.left[0] + 1)
    && forall i :: 1 <= i < |s.msip| ==> HartInv(s, i)
  }

  lemma NextKeepsInv(s: State, h: nat)
    requires Inv(s) && h < |s.msip|
    ensures Inv(Next(s, h))
  {
    var s' := Next(s, h);
    forall i | 1 <= i < |s'.msip| ensures HartInv(s', i) {
      assert HartInv(s, i);
    }
  }

  lemma {:induction false} RunKeepsInv(s: State, schedule: seq<nat>)
    requires Inv(s) && Harts(schedule, |s.msip|)
    ensures Inv(Run(s, schedule))
  {
    if schedule != [] {
      var k := |schedule| - 1;
      RunKeepsInv(s, schedule[..k]);
      NextKeepsInv(Run(s, schedule[..k]), schedule[k]);
    }
  }

  /** Nothing about hart h itself has changed. */
  ghost predicate SameHart(s: State, t: State, h: nat) {
    && |s.pc| == |t.pc| && |s.left| == |t.left| && |s.entered| == |t.entered|
    && (h < |s.pc| && h < |s.left| && h < |s.entered| ==>
          t.pc[h] == s.pc[h] && t.left[h] == s.left[h] && t.entered[h] == s.entered[h])
  }

  // ---------------------------------------------------------------- safety over all runs

  /** No hart has left more rounds than any other hart has entered, so nobody leaves round k
      before everybody entered round k; and no two harts are more than one round apart. */
  lemma Safety(n: nat, schedule: seq<nat>, h: nat, g: nat)
    requires 2 <= n && h < n && g < n && Harts(schedule, n)
    ensures var s := Run(Init(n), schedule);
            && s.left[h] <= s.entered[g]
            && s.entered[h] <= s.entered[g] + 1
            && s.left[h] <= s.left[g] + 1
  {
    RunKeepsInv(Init(n), schedule);
    var s := Run(Init(n), schedule);
    assert h > 0 ==> HartInv(s, h);
    assert g > 0 ==> HartInv(s, g);
  }

  /** Every store is effective and none is lost: hart 0 only ever clears a word that its hart has
      set and is polling, a hart only ever sets its word when it is zero, and a cleared word stays
      cleared, and its hart stays in the poll, until that hart itself takes the step that leaves. */
  lemma StoresAreNeverLost(n: nat, schedule: seq<nat>, i: nat, h: nat)
    requires 2 <= n && 1 <= i < n && h < n && Harts(schedule, n)
    ensures var s := Run(Init(n), schedule);
            && (s.pc[0] == ClearAt(i) ==> s.msip[i] == 1 && s.pc[i].Poll? && s.left[i] == s.left[0])
            && (s.pc[i].Announce? ==> s.msip[i] == 0)
            && (s.pc[i].Poll? && s.msip[i] == 0 ==>
                  if h == i then Next(s, h).left[i] == s.left[i] + 1
                  else Next(s, h).pc[i].Poll? && Next(s, h).msip[i] == 0)
            && (Next(s, h).msip[i] != s.msip[i] ==>
                  || (h == 0 && s.pc[0] == ClearAt(i) && s.msip[i] == 1)
                  || (h == i && s.pc[i].Announce? && s.msip[i] == 0))
  {
    RunKeepsInv(Init(n), schedule);
    assert HartInv(Run(Init(n), schedule), i);
  }

  /** When every hart is between calls, all have completed the same number of rounds and all MSIP
      words are zero again. */
  lemma AllOutside(n: nat, schedule: seq<nat>)
    requires 2 <= n && Harts(schedule, n)
    ensures var s := Run(Init(n), schedule);
            (forall h :: 0 <= h < n ==> s.pc[h].Outside?) ==>
              forall h :: 1 <= h < n ==> s.left[h] == s.left[0] && s.msip[h] == 0
  {
    RunKeepsInv(Init(n), schedule);
    var s := Run(Init(n), schedule);
    if forall h :: 0 <= h < n ==> s.pc[h].Outside? {
      forall h | 1 <= h < n ensures s.left[h] == s.left[0] && s.msip[h] == 0 {
        assert HartInv(s, h);
      }
    }
  }

  // ---------------------------------------------------------------- progress

  /** No deadlock: while some hart still has to leave round `k`, and no hart has run ahead of round
      `k`, some hart that has not left round `k` has a step that changes the state. */
  lemma Progress(n: nat, schedule: seq<nat>, k: nat) returns (h: nat)
    requires 2 <= n && Harts(schedule, n)
    requires var s := Run(Init(n), schedule);
             && (forall g :: 0 <= g < n ==> s.entered[g] <= k)
             && exists g :: 0 <= g < n && s.left[g] < k
    ensures var s := Run(Init(n), schedule);
            h < n && s.left[h] < k && Next(s, h) != s
  {
    RunKeepsInv(Init(n), schedule);
    var s := Run(Init(n), schedule);
    if s.left[0] < k {
      h := 0;
      if s.pc[0].WaitFor? && s.msip[s.pc[0].i] == 0 {
        h := s.pc[0].i;
        assert HartInv(s, h);
      } else if s.pc[0].ClearAt? {
        assert HartInv(s, s.pc[0].i);
        assert Next(s, 0).msip[s.pc[0].i] == 0;
      }
    } else {
      h :| 0 <= h < n && s.left[h] < k;
      assert HartInv(s, h);
    }
    assert h > 0 ==> HartInv(s, h);
    assert Next(s, h).pc[h] != s.pc[h];
  }

  /** The barrier work a hart has done: each round is worth 2 to a waiting hart (set, then see the
      clear) and 2(N-1) to hart 0 (see N-1 words set, then clear them). */
  ghost function HartWork(s: State, h: nat): int
    requires Shape(s) && h < |s.msip|
  {
    var m := |s.msip| - 1;
    if h == 0 then
      2 * m * s.left[0] + (match s.pc[0]
                           case WaitFor(i) => i - 1
                           case ClearAt(i) => m + i - 1
                           case _ => 0)
    else 2 * s.left[h] + (if s.pc[h].Poll? then 1 else 0)
  }

  ghost function Work(s: State, upto: nat): int
    requires Shape(s) && upto <= |s.msip|
  {
    if upto == 0 then 0 else Work(s, upto - 1) + HartWork(s, upto - 1)
  }

  /** A step inside the barrier that changes the state: neither a fruitless poll nor a call. */
  ghost predicate Works(s: State, h: nat)
    requires Shape(s) && h < |s.msip|
  {
    !s.pc[h].Outside? && Next(s, h) != s
  }

  ghost function WorkingSteps(s: State, schedule: seq<nat>): nat
    requires Shape(s) && Harts(schedule, |s.msip|)
  {
    if schedule == [] then 0
    else
      var k := |schedule| - 1;
      WorkingSteps(s, schedule[..k]) + (if Works(Run(s, schedule[..k]), schedule[k]) then 1 else 0)
  }

  lemma HartWorkStep(s: State, h: nat, g: nat)
    requires Inv(s) && h < |s.msip| && g < |s.msip|
    ensures HartWork(Next(s, h), g) == HartWork(s, g) + (if g == h && Works(s, h) then 1 else 0)
  {
    assert h > 0 ==> HartInv(s, h);
    if s.pc[0].ClearAt? { assert HartInv(s, s.pc[0].i); }
    if h == 0 && g == 0 && s.pc[0].ClearAt? {
      var m, l := |s.msip| - 1, s.left[0];
      assert 2 * m * (l + 1) == 2 * m * l + 2 * m;
      assert Next(s, 0).msip[s.pc[0].i] != s.msip[s.pc[0].i];
    }
    if g == h && !s.pc[h].Outside? && Next(s, h) != s { assert Next(s, h).pc[h] != s.pc[h]; }
  }

  lemma {:induction false} WorkStep(s: State, h: nat, upto: nat)
    requires Inv(s) && h < |s.msip| && upto <= |s.msip|
    ensures Work(Next(s, h), upto) == Work(s, upto) + (if h < upto && Works(s, h) then 1 else 0)
  {
    if upto > 0 {
      WorkStep(s, h, upto - 1);
      HartWorkStep(s, h, upto - 1);
    }
  }

  lemma {:induction false} WorkRun(s: State, schedule: seq<nat>)
    requires Inv(s) && Harts(schedule, |s.msip|)
    ensures Work(Run(s, schedule), |s.msip|) == Work(s, |s.msip|) + WorkingSteps(s, schedule)
  {
    if schedule != [] {
      var k := |schedule| - 1;
      WorkRun(s, schedule[..k]);
      RunKeepsInv(s, schedule[..k]);
      WorkStep(Run(s, schedule[..k]), schedule[k], |s.msip|);
    }
  }

  ghost predicate AtRest(s: State, k: nat) {
    Shape(s) && forall h :: 0 <= h < |s.msip| ==> s.pc[h].Outside? && s.left[h] == k
  }

  lemma {:induction false} WorkAtRest(s: State, k: nat, upto: nat)
    requires AtRest(s, k) && 1 <= upto <= |s.msip|
    ensures Work(s, upto) == 2 * (|s.msip| - 1) * k + 2 * (upto - 1) * k
  {
    if upto > 1 {
      WorkAtRest(s, k, upto - 1);
      assert 2 * (upto - 2) * k + 2 * k == 2 * (upto - 1) * k;
    } else {
      assert Work(s, 1) == Work(s, 0) + HartWork(s, 0);
    }
  }

  lemma WorkAtRestInAll(s: State, k: nat)
    requires AtRest(s, k)
    ensures Work(s, |s.msip|) == 4 * (|s.msip| - 1) * k
  {
    WorkAtRest(s, k, |s.msip|);
    TwiceTwice(|s.msip| - 1, k);
  }

  lemma Difference(m: nat, k: int, k': int)
    ensures m * k' - m * k == m * (k' - k)
  {
  }

  lemma TwiceTwice(m: nat, k: nat)
    ensures 2 * m * k + 2 * m * k == 4 * m * k
  {
    Associate(2, m, k);
    Associate(4, m, k);
  }

  /** Between the moment everybody has completed k rounds and the moment everybody has completed
      k' rounds there are exactly 4(N-1)(k'-k) working steps, whatever the schedule did. */
  lemma RoundCost(n: nat, before: seq<nat>, during: seq<nat>, k: nat, k': nat)
    requires 2 <= n && Harts(before, n) && Harts(during, n)
    requires AtRest(Run(Init(n), before), k)
    requires AtRest(Run(Run(Init(n), before), during), k')
    ensures WorkingSteps(Run(Init(n), before), during) == 4 * (n - 1) * (k' - k)
  {
    hide Work, WorkingSteps, Inv, AtRest;
    var s := Run(Init(n), before);
    RunKeepsInv(Init(n), before);
    WorkRun(s, during);
    WorkAtRestInAll(s, k);
    WorkAtRestInAll(Run(s, during), k');
    Difference(4 * (n - 1), k, k');
  }

  lemma RoundsBelow(m: nat, l: nat, k: nat)
    requires l < k
    ensures 2 * m * l + 2 * m <= 2 * m * k
  {
    MulLe(l + 1, k, 2 * m);
    Distribute(l, 1, 2 * m);
  }

  /** A hart that has been called at most k times has done at most the work of k rounds, and has done
      all of it exactly when it is back from its k-th call. */
  lemma HartWorkCap(s: State, h: nat, k: nat)
    requires Inv(s) && h < |s.msip| && s.entered[h] <= k
    ensures var cap := if h == 0 then 2 * (|s.msip| - 1) * k else 2 * k;
            && HartWork(s, h) <= cap
            && (HartWork(s, h) == cap <==> s.pc[h].Outside? && s.left[h] == k)
  {
    assert h > 0 ==> HartInv(s, h);
    if h == 0 && s.left[0] < k { RoundsBelow(|s.msip| - 1, s.left[0], k); }
  }

  lemma {:induction false} WorkCap(s: State, k: nat, upto: nat)
    requires Inv(s) && 1 <= upto <= |s.msip|
    requires forall g :: 0 <= g < |s.msip| ==> s.entered[g] <= k
    ensures var cap := 2 * (|s.msip| - 1) * k + 2 * (upto - 1) * k;
            && Work(s, upto) <= cap
            && (Work(s, upto) == cap <==> forall h :: 0 <= h < upto ==> s.pc[h].Outside? && s.left[h] == k)
  {
    HartWorkCap(s, upto - 1, k);
    assert Work(s, upto) == Work(s, upto - 1) + HartWork(s, upto - 1);
    if upto > 1 {
      WorkCap(s, k, upto - 1);
      assert 2 * (upto - 2) * k + 2 * k == 2 * (upto - 1) * k;
    }
  }

  /** However the harts are interleaved, k calls by each hart take at most 4(N-1)k working steps in
      all, and the run is complete exactly when it has taken that many. */
  lemma KRounds(n: nat, schedule: seq<nat>, k: nat)
    requires 2 <= n && Harts(schedule, n)
    requires forall g :: 0 <= g < n ==> Run(Init(n), schedule).entered[g] <= k
    ensures WorkingSteps(Init(n), schedule) <= 4 * (n - 1) * k
    ensures WorkingSteps(Init(n), schedule) == 4 * (n - 1) * k <==> AtRest(Run(Init(n), schedule), k)
  {
    hide Work, WorkingSteps, Inv;
    var s := Run(Init(n), schedule);
    RunKeepsInv(Init(n), schedule);
    WorkRun(Init(n), schedule);
    WorkAtRest(Init(n), 0, n);
    WorkCap(s, k, n);
    TwiceTwice(n - 1, k);
  }

  // ---------------------------------------------------------------- the calls

  lemma Extend(n: nat, schedule: seq<nat>, h: nat)
    requires 2 <= n && Harts(schedule, n) && h < n
    ensures Harts(schedule + [h], n)
    ensures Run(Init(n), schedule + [h]) == Next(Run(Init(n), schedule), h)
  {
    assert (schedule + [h])[..|schedule|] == schedule;
  }

  /** The harts and the MSIP words.  Between any two accesses of one hart the others run as they like;
      the scheduler is fair in that a hart that keeps polling eventually gets what it waits for. */
  class System {
    const n: nat
    var state: State
    ghost var schedule: seq<nat>

    ghost predicate Valid()
      reads this
    {
      2 <= n == |state.msip| && Shape(state) && Harts(schedule, n) && state == Run(Init(n), schedule)
    }

    constructor (n: nat)
      requires 2 <= n
      ensures Valid() && this.n == n && schedule == []
    {
      this.n, state, schedule := n, Init(n), [];
    }

    method Act(h: nat)
      requires Valid() && h < n
      modifies this
      ensures Valid() && Inv(state) && state == Next(old(state), h) && schedule == old(schedule) + [h]
    {
      Extend(n, schedule, h);
      state := Next(state, h);
      schedule := schedule + [h];
      RunKeepsInv(Init(n), schedule);
    }

    /** Any number of steps of the other harts. */
    method Others(me: nat)
      requires Valid() && me < n
      modifies this
      ensures Valid() && Inv(state) && SameHart(old(state), state, me) && old(schedule) <= schedule
    {
      hide Inv, Run, Harts;
      RunKeepsInv(Init(n), schedule);
      var steps: nat := *;
      while steps > 0
        invariant Valid() && Inv(state) && SameHart(old(state), state, me) && old(schedule) <= schedule
      {
        var h: nat := *;
        if h < n && h != me { Act(h); }
        steps := steps - 1;
      }
    }

    /** Hart i runs until its word is set, for a hart 0 that waits for it. */
    method LetAnnounce(i: nat)
      requires Valid() && 1 <= i < n && state.pc[0] == WaitFor(i)
      modifies this
      ensures Valid() && Inv(state) && state.msip[i] != 0 && old(schedule) <= schedule && SameHart(old(state), state, 0)
      ensures forall h :: 0 <= h < n && h != i ==> SameHart(old(state), state, h) && state.msip[h] == old(state.msip[h])
    {
      hide Run, Harts;
      RunKeepsInv(Init(n), schedule);
      while state.msip[i] == 0
        invariant Valid() && Inv(state) && old(schedule) <= schedule
        invariant forall h :: 0 <= h < n && h != i ==> SameHart(old(state), state, h) && state.msip[h] == old(state.msip[h])
        invariant SameHart(old(state), state, 0)
        decreases if state.msip[i] != 0 then 0 else match state.pc[i] case Poll => 3 case Outside => 2 case _ => 1
      {
        ghost var before := state;
        assert HartInv(before, i);
        Act(i);
        forall h | 0 <= h < n && h != i
          ensures SameHart(old(state), state, h) && state.msip[h] == old(state.msip[h])
        {
          assert SameHart(old(state), before, h);
        }
      }
    }

    /** while (METAL_MSIP(i) == 0) ; on hart 0 */
    method WaitForWord(i: nat)
      requires Valid() && 1 <= i < n && state.pc[0] == WaitFor(i)
      modifies this
      ensures Valid() && Inv(state) && state.left[0] == old(state.left[0]) && old(schedule) <= schedule
      ensures state.pc[0] == if i + 1 < n then WaitFor(i + 1) else ClearAt(1)
    {
      hide Run, Harts, Inv;
      var patience: nat := *;
      while true
        invariant Valid() && state.pc[0] == WaitFor(i) && state.left[0] == old(state.left[0]) && old(schedule) <= schedule
        decreases patience
      {
        Others(0);
        if patience == 0 && state.msip[i] == 0 { LetAnnounce(i); }
        var word := state.msip[i];
        Act(0);
        if word != 0 { break; }
        patience := patience - 1;
      }
    }

    /** The call on hart 0: wait for every other hart in turn, then clear every word. */
    method SynchronizeHart0()
      requires Valid() && state.pc[0].Outside?
      modifies this
      ensures Valid() && old(schedule) <= schedule
      ensures state.pc[0].Outside? && state.left[0] == old(state.left[0]) + 1
      ensures forall h :: 0 <= h < n ==> state.entered[h] >= state.left[0]
    {
      hide Run, Harts;
      Act(0);
      var i := 1;
      while i < n
        invariant 1 <= i <= n && Valid() && Inv(state) && old(schedule) <= schedule
        invariant state.left[0] == old(state.left[0])
        invariant state.pc[0] == if i < n then WaitFor(i) else ClearAt(1)
      {
        WaitForWord(i);
        i := i + 1;
      }
      i := 1;
      while i < n
        invariant 1 <= i <= n && Valid() && Inv(state) && old(schedule) <= schedule
        invariant state.left[0] == old(state.left[0]) + if i < n then 0 else 1
        invariant state.pc[0] == if i < n then ClearAt(i) else Outside
      {
        Others(0);
        Act(0);
        i := i + 1;
      }
      EverybodyEntered(0);
    }

    lemma EverybodyEntered(h: nat)
      requires Valid() && h < n
      ensures forall g :: 0 <= g < n ==> state.entered[g] >= state.left[h]
    {
      forall g | 0 <= g < n ensures state.entered[g] >= state.left[h] { Safety(n, schedule, h, g); }
    }

    /** Everybody else runs until hart 0 clears the word of hart h. */
    method LetClear(h: nat)
      requires Valid() && 1 <= h < n && state.pc[h].Poll?
      modifies this
      ensures Valid() && Inv(state) && state.msip[h] != 1 && SameHart(old(state), state, h) && old(schedule) <= schedule
    {
      hide Run, Harts;
      RunKeepsInv(Init(n), schedule);
      while state.msip[h] == 1
        invariant Valid() && Inv(state) && SameHart(old(state), state, h) && old(schedule) <= schedule
        decreases if state.msip[h] != 1 then 0
                  else match state.pc[0]
                  case ClearAt(j) => if j <= h then h - j + 1 else n - j + n + h + 3
                  case WaitFor(j) => n - j + h + 1
                  case _ => n + h + 2
      {
        ghost var before := state;
        if state.pc[0].WaitFor? && state.msip[state.pc[0].i] == 0 { LetAnnounce(state.pc[0].i); }
        assert SameHart(before, state, h) && state.msip[h] == 1;
        Act(0);
      }
    }

    /** The call on any other hart: set the word, then wait until hart 0 has cleared it. */
    method SynchronizeHart(h: nat)
      requires Valid() && 1 <= h < n && state.pc[h].Outside?
      modifies this
      ensures Valid() && old(schedule) <= schedule
      ensures state.pc[h].Outside? && state.left[h] == old(state.left[h]) + 1
      ensures forall g :: 0 <= g < n ==> state.entered[g] >= state.left[h]
    {
      hide Run, Harts, Inv;
      Act(h);
      Others(h);
      Act(h);
      var patience: nat := *;
      while true
        invariant Valid() && state.pc[h].Poll? && state.left[h] == old(state.left[h]) && old(schedule) <= schedule
        decreases patience
      {
        Others(h);
        if patience == 0 && state.msip[h] == 1 { LetClear(h); }
        var word := state.msip[h];
        Act(h);
        if word != 1 { break; }
        patience := patience - 1;
      }
      EverybodyEntered(h);
    }
  }
}
