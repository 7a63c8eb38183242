/** Letting go of a block takes two sections: the counter is decremented atomically, and read again afterwards to see
    whether it has become zero. Here threads interleave between the two. A thread that looks after the memory has been
    freed is taken to read the zero that was left there; what freed memory holds nobody promises. */
module BlockRaces {

  /** A thread holds a block value, has decremented the counter but not looked at it again, or is through. */
  datatype Phase = Holding | Between | Gone

  /** racers is how many threads were between the two sections when the counter became zero. */
  datatype State = State(count: nat, threads: seq<Phase>, frees: nat, racers: nat)

  /** Thread t copies its block value for a new thread, decrements the counter, or looks at it. */
  datatype Step = Take(t: nat) | Drop(t: nat) | Look(t: nat)

  ghost predicate Can(st: State, step: Step) {
    step.t < |st.threads| &&
    match step
    case Take(t) => st.threads[t].Holding?
    case Drop(t) => st.threads[t].Holding? && st.count > 0
    case Look(t) => st.threads[t].Between?
  }

  function Number(threads: seq<Phase>, p: Phase): (n: nat)
    ensures n <= |threads|
  {
    if threads == [] then 0
    else Number(threads[..|threads| - 1], p) + if threads[|threads| - 1] == p then 1 else 0
  }

  /** own says that the last holder frees the memory, as it does not for the slots of a pool. */
  ghost function Next(own: bool, st: State, step: Step): State {
    if !Can(st, step) then st
    else
      match step
      case Take(t) => st.(count := st.count + 1, threads := st.threads + [Holding])
      case Drop(t) =>
        var threads := st.threads[t := Between];
        State(st.count - 1, threads, st.frees, if st.count == 1 then Number(threads, Between) else st.racers)
      case Look(t) =>
        st.(threads := st.threads[t := Gone], frees := st.frees + if own && st.count == 0 then 1 else 0)
  }

  /** n threads hold the block. */
  function Init(n: nat): State {
    State(n, seq(n, i => Holding), 0, 0)
  }

  ghost function Run(own: bool, n: nat, steps: seq<Step>): State {
    if steps == [] then Init(n) else Next(own, Run(own, n, steps[..|steps| - 1]), steps[|steps| - 1])
  }

  // ---------- counting ----------

  lemma {:induction false} NumberUpdate(threads: seq<Phase>, t: nat, now: Phase, p: Phase)
    requires t < |threads|
    ensures Number(threads[t := now], p)
      == Number(threads, p) - (if threads[t] == p then 1 else 0) + (if now == p then 1 else 0)
  {
    var n := |threads| - 1;
    if t == n {
      assert threads[t := now][..n] == threads[..n];
    } else {
      assert threads[t := now][..n] == threads[..n][t := now];
      NumberUpdate(threads[..n], t, now, p);
    }
  }

  lemma NumberAppend(threads: seq<Phase>, now: Phase, p: Phase)
    ensures Number(threads + [now], p) == Number(threads, p) + if now == p then 1 else 0
  {
    assert (threads + [now])[..|threads|] == threads;
  }

  lemma {:induction false} NumberAll(n: nat, p: Phase)
    ensures Number(seq(n, i => Holding), p) == if p == Holding then n else 0
  {
    if n > 0 {
      assert seq(n, i => Holding)[..n - 1] == seq(n - 1, i => Holding);
      NumberAll(n - 1, p);
    }
  }

  lemma {:induction false} NumberNone(threads: seq<Phase>, p: Phase)
    requires forall t | 0 <= t < |threads| :: threads[t] != p
    ensures Number(threads, p) == 0
  {
    if threads != [] {
      NumberNone(threads[..|threads| - 1], p);
    }
  }

  // ---------- every run ----------

  /** The counter is the number of holders; while there are any nothing is freed; once there are none, every thread
      still to look at the counter will free the memory. */
  ghost predicate Inv(own: bool, st: State) {
    && st.count == Number(st.threads, Holding)
    && (st.count > 0 || !own ==> st.frees == 0)
    && (st.count == 0 && own ==> st.frees + Number(st.threads, Between) == st.racers && st.racers > 0)
  }

  lemma NextInv(own: bool, st: State, step: Step)
    requires Inv(own, st)
    ensures Inv(own, Next(own, st, step))
  {
    if Can(st, step) {
      var t := step.t;
      match step
      case Take(_) => NumberAppend(st.threads, Holding, Holding);
        Positive(st.threads, t);
      case Drop(_) =>
        NumberUpdate(st.threads, t, Between, Holding);
        NumberUpdate(st.threads, t, Between, Between);
      case Look(_) =>
        NumberUpdate(st.threads, t, Gone, Holding);
        NumberUpdate(st.threads, t, Gone, Between);
    }
  }

  /** A holder counts. */
  lemma Positive(threads: seq<Phase>, t: nat)
    requires t < |threads|
    ensures Number(threads, threads[t]) > 0
  {
    NumberUpdate(threads, t, if threads[t].Gone? then Holding else Gone, threads[t]);
  }

  lemma {:induction false} RunInv(own: bool, n: nat, steps: seq<Step>)
    requires n > 0
    ensures Inv(own, Run(own, n, steps))
  {
    if steps == [] {
      NumberAll(n, Holding);
    } else {
      RunInv(own, n, steps[..|steps| - 1]);
      NextInv(own, Run(own, n, steps[..|steps| - 1]), steps[|steps| - 1]);
    }
  }

  /** When all threads are through, memory of its own has been freed once for every thread that was between its two
      sections when the counter became zero: at least once, and exactly once if and only if that was one thread. */
  lemma {:induction false} FreedByRacers(n: nat, steps: seq<Step>)
    requires n > 0 && forall t | 0 <= t < |Run(true, n, steps).threads| :: Run(true, n, steps).threads[t].Gone?
    ensures Run(true, n, steps).frees == Run(true, n, steps).racers >= 1
  {
    RunInv(true, n, steps);
    hide Run;
    var st := Run(true, n, steps);
    NumberNone(st.threads, Holding);
    NumberNone(st.threads, Between);
  }

  /** If no two threads are ever between their sections together, the memory is freed exactly once. */
  lemma {:induction false} OneAtATime(n: nat, steps: seq<Step>)
    requires n > 0 && forall t | 0 <= t < |Run(true, n, steps).threads| :: Run(true, n, steps).threads[t].Gone?
    requires forall k | 0 <= k <= |steps| :: Number(Run(true, n, steps[..k]).threads, Between) <= 1
    ensures Run(true, n, steps).frees == 1
  {
    FreedByRacers(n, steps);
    FewRacers(n, steps);
  }

  lemma {:induction false} FewRacers(n: nat, steps: seq<Step>)
    requires forall k | 0 <= k <= |steps| :: Number(Run(true, n, steps[..k]).threads, Between) <= 1
    ensures Run(true, n, steps).racers <= 1
  {
    if steps != [] {
      var init := steps[..|steps| - 1];
      forall k | 0 <= k <= |init|
        ensures Number(Run(true, n, init[..k]).threads, Between) <= 1
      {
        assert init[..k] == steps[..k];
      }
      FewRacers(n, init);
      assert steps[..|steps|] == steps;
      hide Number;
    }
  }

  /** It need not be one: two threads both let go before either looks. */
  lemma TwoRacers()
    ensures var st := Run(true, 2, [Drop(0), Drop(1), Look(0), Look(1)]);
      st.frees == 2 && st.threads == [Gone, Gone]
  {
    var s1 := [Drop(0)];
    var s2 := s1 + [Drop(1)];
    var s3 := s2 + [Look(0)];
    var s4 := s3 + [Look(1)];
    assert s4 == [Drop(0), Drop(1), Look(0), Look(1)];
    assert s1[..0] == [] && s2[..1] == s1 && s3[..2] == s2 && s4[..3] == s3;
    assert Run(true, 2, s1).threads == [Between, Holding];
    assert Run(true, 2, s2).threads == [Between, Between];
    assert Run(true, 2, s3).threads == [Gone, Between];
    assert Run(true, 2, s4).threads == [Gone, Gone];
  }

  /** The slots of a pool are not touched by this: from one taking of the slot to the next nothing is freed and the
      counter is the number of live block values. */
  lemma {:induction false} PoolSlots(n: nat, steps: seq<Step>)
    requires n > 0
    ensures var st := Run(false, n, steps); st.frees == 0 && st.count == Number(st.threads, Holding)
  {
    RunInv(false, n, steps);
  }
}
