/**
 The test-and-set spin lock: any number of harts take and give one lock word with atomic swaps.
 One step is one atomic swap or one turn of a hart's private backoff loop.  A history lists the
 steps in the order in which they happen, so histories range over all interleavings.
 */
module Lock {
  import opened Arith

  const BACKOFF_CYCLES: nat := 32
  const BACKOFF_EXPONENT: nat := 2
  const MAX_CORES: nat := 8
  const MAX_BACKOFF: nat := BACKOFF_CYCLES * MAX_CORES

  /** A hart outside, about to swap, spinning after a failed swap, or back from `take`. */
  datatype Hart = Idle | Swap(backoff: nat) | Spin(turns: nat, backoff: nat) | Holds

  /** `fails` counts the failed swaps of each hart's latest call of `take`. */
  datatype State = State(word: int, hart: seq<Hart>, fails: seq<nat>)

  /** Hart `who` proceeds with `take` (calling it when idle), or calls `give`. */
  datatype Event = Take(who: nat) | Give(who: nat)

  ghost predicate Shape(s: State) { |s.hart| == |s.fails| }

  function Init(n: nat): (s: State)
    ensures Inv(s) && BackoffInv(s) && |s.hart| == n
  {
    State(0, seq(n, _ => Idle), seq(n, _ => 0))
  }

  function Next(s: State, e: Event): (s': State)
    requires Shape(s) && e.who < |s.hart|
    ensures Shape(s') && |s'.hart| == |s.hart|
  {
    var h := e.who;
    if e.Give? then s.(word := 0, hart := s.hart[h := Idle])
    else match s.hart[h]
      case Idle => s.(hart := s.hart[h := Swap(1)], fails := s.fails[h := 0])
      case Swap(b) =>
        if s.word == 0 then s.(word := 1, hart := s.hart[h := Holds])
        else s.(word := 1, hart := s.hart[h := Spin(b, b)], fails := s.fails[h := s.fails[h] + 1])
      case Spin(t, b) =>
        if t > 0 then s.(hart := s.hart[h := Spin(t - 1, b)])
        else s.(hart := s.hart[h := Swap(if b < MAX_BACKOFF then b * BACKOFF_EXPONENT else b)])
      case Holds => s
  }

  ghost predicate Harts(history: seq<Event>, n: nat) {
    forall k :: 0 <= k < |history| ==> history[k].who < n
  }

  function Run(n: nat, history: seq<Event>): (s: State)
    requires Harts(history, n)
    ensures Shape(s) && |s.hart| == n
  {
    if history == [] then Init(n)
    else
      var k := |history| - 1;
      Next(Run(n, history[..k]), history[k])
  }

  /** A hart gives only what it holds. */
  ghost predicate Disciplined(n: nat, history: seq<Event>)
    requires Harts(history, n)
  {
    forall k :: 0 <= k < |history| && history[k].Give? ==>
      Run(n, history[..k]).hart[history[k].who].Holds?
  }

  // ---------------------------------------------------------------- mutual exclusion

  ghost predicate Held(s: State) { exists h :: 0 <= h < |s.hart| && s.hart[h].Holds? }

  ghost predicate AtMostOneHolder(s: State) {
    forall h, g :: 0 <= h < g < |s.hart| ==> !(s.hart[h].Holds? && s.hart[g].Holds?)
  }

  ghost predicate Inv(s: State) {
    && Shape(s)
    && AtMostOneHolder(s)
    && (s.word == if Held(s) then 1 else 0)
  }

  lemma TakeKeepsInv(s: State, h: nat)
    requires Inv(s) && h < |s.hart|
    ensures Inv(Next(s, Take(h)))
  {
    var s' := Next(s, Take(h));
    if g :| 0 <= g < |s.hart| && s.hart[g].Holds? { assert s'.hart[g].Holds?; }
    assert s'.hart[h].Holds? || s'.hart[h] == s'.hart[h];
  }

  /** A `give` keeps the lock sound exactly when its caller holds the lock or nobody does. */
  lemma GiveKeepsInvIff(s: State, h: nat)
    requires Inv(s) && h < |s.hart|
    ensures Inv(Next(s, Give(h))) <==> s.hart[h].Holds? || !Held(s)
  {
    var s' := Next(s, Give(h));
    if s.hart[h].Holds? || !Held(s) {
      assert forall g :: 0 <= g < |s'.hart| && s'.hart[g].Holds? ==> s.hart[g].Holds? && g != h;
    } else {
      var g :| 0 <= g < |s.hart| && s.hart[g].Holds?;
      assert s'.hart[g].Holds?;
    }
  }

  /** Why the discipline is needed: hart 1 gives hart 0's lock back, hart 1 takes it, and both hold it. */
  lemma UndisciplinedGiveBreaksExclusion()
    ensures !AtMostOneHolder(Run(2, [Take(0), Take(0), Give(1), Take(1), Take(1)]))
  {
    var e := [Take(0), Take(0), Give(1), Take(1), Take(1)];
    RunStep(2, e[..1]);
    RunStep(2, e[..2]);
    RunStep(2, e[..3]);
    RunStep(2, e[..4]);
    RunStep(2, e);
    assert e[..5] == e;
    assert Run(2, e).hart[0].Holds? && Run(2, e).hart[1].Holds?;
  }

  lemma RunStep(n: nat, history: seq<Event>)
    requires Harts(history, n) && history != []
    ensures var k := |history| - 1;
            && Run(n, history) == Next(Run(n, history[..k]), history[k])
            && forall j :: 0 <= j <= k ==> history[..k][..j] == history[..j]
  {
  }

  /** In every reachable state at most one hart holds the lock, and the lock word is 1 exactly when
      one does. */
  lemma {:induction false} MutualExclusion(n: nat, history: seq<Event>)
    requires Harts(history, n) && Disciplined(n, history)
    ensures Inv(Run(n, history))
  {
    if history != [] {
      var k := |history| - 1;
      forall j | 0 <= j < k && history[..k][j].Give? ensures Run(n, history[..k][..j]).hart[history[..k][j].who].Holds? {
        assert history[..k][..j] == history[..j];
      }
      MutualExclusion(n, history[..k]);
      var s := Run(n, history[..k]);
      if history[k].Take? { TakeKeepsInv(s, history[k].who); } else { GiveKeepsInvIff(s, history[k].who); }
    }
  }

  /** A swap on a free lock succeeds; a swap on a held lock leaves the word and every other hart
      alone. */
  lemma SwapOutcome(n: nat, history: seq<Event>, h: nat)
    requires Harts(history, n) && Disciplined(n, history) && h < n
    requires Run(n, history).hart[h].Swap?
    ensures var s, s' := Run(n, history), Next(Run(n, history), Take(h));
            && (s'.hart[h].Holds? <==> !Held(s))
            && (Held(s) ==> s'.word == s.word)
            && (Held(s) ==> var d := Min(Pow2(s.fails[h]), 256); s'.hart[h] == Spin(d, d))
            && (forall g :: 0 <= g < n && g != h ==> s'.hart[g] == s.hart[g])
            && Held(s')
  {
    MutualExclusion(n, history);
    Backoff(n, history);
    var s, s' := Run(n, history), Next(Run(n, history), Take(h));
    if g :| 0 <= g < n && s.hart[g].Holds? { assert s'.hart[g].Holds?; }
    else { assert s'.hart[h].Holds?; }
  }

  // ---------------------------------------------------------------- backoff

  /** The delay after the k-th failure in a row is 2^(k-1) turns, capped at 256. */
  ghost predicate BackoffInv(s: State) {
    && Shape(s)
    && forall h :: 0 <= h < |s.hart| ==>
         match s.hart[h]
         case Swap(b) => b == Min(Pow2(s.fails[h]), MAX_BACKOFF)
         case Spin(t, b) => t <= b && s.fails[h] > 0 && b == Min(Pow2(s.fails[h] - 1), MAX_BACKOFF)
         case _ => true
  }

  lemma {:induction false} CapIsAPower(k: nat)
    ensures 8 <= k ==> MAX_BACKOFF <= Pow2(k)
    ensures k < 8 ==> 2 * Pow2(k) <= MAX_BACKOFF
  {
    if k > 8 { CapIsAPower(k - 1); }
    else { assert Pow2(8) == 256 by { assert Pow2(4) == 16; } }
  }

  lemma NextKeepsBackoff(s: State, e: Event)
    requires BackoffInv(s) && e.who < |s.hart|
    ensures BackoffInv(Next(s, e))
  {
    if s.hart[e.who].Spin? { CapIsAPower(s.fails[e.who] - 1); }
  }

  lemma {:induction false} Backoff(n: nat, history: seq<Event>)
    requires Harts(history, n)
    ensures BackoffInv(Run(n, history))
  {
    hide BackoffInv, Next;
    if history != [] {
      var k := |history| - 1;
      Backoff(n, history[..k]);
      NextKeepsBackoff(Run(n, history[..k]), history[k]);
    }
  }

  /** How often hart h proceeds in these events. */
  ghost function Turns(es: seq<Event>, h: nat): nat {
    if es == [] then 0 else Turns(es[..|es| - 1], h) + if es[|es| - 1] == Take(h) then 1 else 0
  }

  /** Whatever the others do, a hart that backs off for t turns takes exactly t turns before it swaps again. */
  lemma {:induction false} SpinsOut(n: nat, history: seq<Event>, es: seq<Event>, h: nat)
    requires Harts(history + es, n) && Harts(history, n) && h < n && Run(n, history).hart[h].Spin?
    requires Give(h) !in es && Turns(es, h) <= Run(n, history).hart[h].turns + 1
    ensures var t, u := Run(n, history).hart[h], Run(n, history + es).hart[h];
            && (Turns(es, h) <= t.turns ==> u == Spin(t.turns - Turns(es, h), t.backoff))
            && (Turns(es, h) == t.turns + 1 ==> u == Swap(if t.backoff < 256 then 2 * t.backoff else t.backoff))
  {
    if es == [] {
      assert history + es == history;
    } else {
      var k := |es| - 1;
      assert (history + es)[..|history| + k] == history + es[..k] && (history + es)[|history| + k] == es[k];
      SpinsOut(n, history, es[..k], h);
    }
  }

  // ---------------------------------------------------------------- the calls

  /** A lock and the harts that use it.  Between any two steps of one hart the others act as they
      like; the scheduler is fair in that a hart that keeps swapping eventually finds the lock free. */
  class System {
    const n: nat
    var state: State
    ghost var history: seq<Event>

    ghost predicate Valid()
      reads this
    {
      Harts(history, n) && Disciplined(n, history) && state == Run(n, history)
    }

    constructor (n: nat)
      ensures Valid() && this.n == n && history == []
    {
      this.n, state, history := n, Init(n), [];
    }

    method Act(e: Event)
      requires Valid() && e.who < n && (e.Give? ==> state.hart[e.who].Holds?)
      modifies this
      ensures Valid() && history == old(history) + [e] && state == Next(old(state), e)
    {
      Extend(n, history, e);
      state := Next(state, e);
      history := history + [e];
    }

    /** Any number of steps of the other harts. */
    method Others(me: nat)
      requires Valid() && me < n
      modifies this
      ensures Valid() && old(history) <= history
      ensures state.hart[me] == old(state.hart[me]) && state.fails[me] == old(state.fails[me])
    {
      var steps: nat := *;
      while steps > 0
        invariant Valid() && old(history) <= history
        invariant state.hart[me] == old(state.hart[me]) && state.fails[me] == old(state.fails[me])
      {
        var h: nat, give: bool := *, *;
        if h < n && h != me && (give ==> state.hart[h].Holds?) { Act(if give then Give(h) else Take(h)); }
        steps := steps - 1;
      }
    }

    /** Whoever holds the lock gives it back. */
    method HolderGives(me: nat)
      requires Valid() && me < n && !state.hart[me].Holds?
      modifies this
      ensures Valid() && old(history) <= history && !Held(state)
      ensures state.hart[me] == old(state.hart[me]) && state.fails[me] == old(state.fails[me])
    {
      MutualExclusion(n, history);
      var h := 0;
      while h < n && !state.hart[h].Holds?
        invariant 0 <= h <= n
        invariant forall g :: 0 <= g < h ==> !state.hart[g].Holds?
      {
        h := h + 1;
      }
      if h < n { Act(Give(h)); }
    }

    /** metal_lock_take: swap, and while that fails back off for twice as long each time. */
    method TakeLock(me: nat)
      requires Valid() && me < n && state.hart[me].Idle?
      modifies this
      ensures Valid() && old(history) <= history
      ensures state.hart[me].Holds? && state.word == 1
      ensures forall h :: 0 <= h < n && h != me ==> !state.hart[h].Holds?
    {
      hide Run, Disciplined, Harts, Pow2, Min, BackoffInv;
      Act(Take(me));
      var patience: nat := *;
      while true
        invariant Valid() && old(history) <= history && state.hart[me].Swap?
        decreases patience
      {
        Others(me);
        if patience == 0 { HolderGives(me); }
        MutualExclusion(n, history);
        Act(Take(me));
        if state.hart[me].Holds? { break; }
        patience := patience - 1;
        while state.hart[me].turns > 0
          invariant Valid() && old(history) <= history && state.hart[me].Spin?
          decreases state.hart[me].turns
        {
          Others(me);
          Act(Take(me));
        }
        Act(Take(me));
      }
      MutualExclusion(n, history);
    }

    /** metal_lock_give, by a hart that holds the lock. */
    method GiveLock(me: nat)
      requires Valid() && me < n && state.hart[me].Holds?
      modifies this
      ensures Valid() && history == old(history) + [Give(me)]
      ensures state.hart[me].Idle? && state.word == 0 && !Held(state)
    {
      MutualExclusion(n, history);
      Act(Give(me));
      MutualExclusion(n, history);
    }
  }

  lemma Extend(n: nat, history: seq<Event>, e: Event)
    requires Harts(history, n) && Disciplined(n, history) && e.who < n
    requires e.Give? ==> Run(n, history).hart[e.who].Holds?
    ensures Harts(history + [e], n) && Disciplined(n, history + [e])
    ensures Run(n, history + [e]) == Next(Run(n, history), e)
  {
    var t := history + [e];
    assert t[..|history|] == history;
    forall k | 0 <= k < |t| && t[k].Give? ensures Run(n, t[..k]).hart[t[k].who].Holds? {
      if k < |history| { assert t[..k] == history[..k]; }
    }
  }
}
