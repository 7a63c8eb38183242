/** The slots of a block pool while threads copy and let go of blocks and others take slots, in any order. A slot is
    taken by one atomic step that succeeds only on a counter of zero, so its memory goes from one life to the next. */
module PoolRaces {

  datatype Phase = Holding | Between | Gone

  /** A thread with a block value of a slot, got in the given life of the slot. */
  datatype Thread = Thread(slot: nat, life: nat, phase: Phase)

  /** The counters, the present life of each slot, and the threads; lives counts the times that a slot was taken. */
  datatype State = State(counts: seq<nat>, life: seq<nat>, threads: seq<Thread>, lives: nat)

  /** Some thread tries to take slot i; thread t copies its block value for a new one, decrements the counter, or looks
      at it afterwards. */
  datatype Step = Try(i: nat) | Copy(t: nat) | Drop(t: nat) | Look(t: nat)

  ghost predicate Can(st: State, step: Step) {
    match step
    case Try(i) => i < |st.counts| == |st.life| && st.counts[i] == 0
    case Copy(t) => HoldsSome(st, t)
    case Drop(t) => HoldsSome(st, t) && st.counts[st.threads[t].slot] > 0
    case Look(t) => t < |st.threads| && st.threads[t].phase.Between?
  }

  ghost predicate HoldsSome(st: State, t: nat) {
    t < |st.threads| && st.threads[t].phase.Holding? && st.threads[t].slot < |st.counts|
  }

  /** A pool's memory is not freed by those who let go of a slot, so looking does nothing. */
  ghost function Next(st: State, step: Step): State {
    if !Can(st, step) then st
    else
      match step
      case Try(i) =>
        State(st.counts[i := 1], st.life[i := st.lives], st.threads + [Thread(i, st.lives, Holding)], st.lives + 1)
      case Copy(t) =>
        var i := st.threads[t].slot;
        st.(counts := st.counts[i := st.counts[i] + 1], threads := st.threads + [st.threads[t]])
      case Drop(t) =>
        var i := st.threads[t].slot;
        st.(counts := st.counts[i := st.counts[i] - 1], threads := st.threads[t := st.threads[t].(phase := Between)])
      case Look(t) => st.(threads := st.threads[t := st.threads[t].(phase := Gone)])
  }

  /** A pool of n free slots. */
  function Init(n: nat): State {
    State(seq(n, i => 0), seq(n, i => 0), [], 0)
  }

  ghost function Run(n: nat, steps: seq<Step>): State {
    if steps == [] then Init(n) else Next(Run(n, steps[..|steps| - 1]), steps[|steps| - 1])
  }

  /** The threads that hold a block value of slot i. */
  ghost function Holders(threads: seq<Thread>, i: nat): set<nat> {
    set t: nat | t < |threads| && threads[t].slot == i && threads[t].phase.Holding?
  }

  /** The counters count the holders, and all holders of a slot got it in its present life. */
  ghost predicate Inv(st: State) {
    && |st.life| == |st.counts|
    && (forall i | 0 <= i < |st.counts| :: st.counts[i] == |Holders(st.threads, i)|)
    && (forall t | 0 <= t < |st.threads| :: InLife(st, st.threads[t]))
  }

  ghost predicate InLife(st: State, x: Thread) {
    x.slot < |st.life| && (x.phase.Holding? ==> x.life == st.life[x.slot])
  }

  lemma HoldersMore(threads: seq<Thread>, x: Thread, i: nat)
    requires x.phase.Holding?
    ensures Holders(threads + [x], i)
      == if x.slot == i then Holders(threads, i) + {|threads|} else Holders(threads, i)
  {
  }

  lemma HoldersChange(threads: seq<Thread>, t: nat, x: Thread, i: nat)
    requires t < |threads| && x.slot == threads[t].slot && !x.phase.Holding?
    ensures Holders(threads[t := x], i) == Holders(threads, i) - {t}
  {
  }

  lemma NextInv(st: State, step: Step)
    requires Inv(st)
    ensures Inv(Next(st, step))
  {
    if Can(st, step) {
      var next := Next(st, step);
      forall i | 0 <= i < |st.counts|
        ensures next.counts[i] == |Holders(next.threads, i)|
      {
        NextCounts(st, step, i);
      }
      forall t | 0 <= t < |next.threads|
        ensures InLife(next, next.threads[t])
      {
        NextLives(st, step, t);
      }
      assert |next.life| == |next.counts| == |st.counts|;
      hide Next, InLife, Holders;
    }
  }

  lemma NextCounts(st: State, step: Step, i: nat)
    requires Inv(st) && Can(st, step) && i < |st.counts|
    ensures |Next(st, step).counts| == |st.counts|
    ensures Next(st, step).counts[i] == |Holders(Next(st, step).threads, i)|
  {
    match step {
      case Try(j) => HoldersMore(st.threads, Thread(j, st.lives, Holding), i);
      case Copy(t) => HoldersMore(st.threads, st.threads[t], i);
      case Drop(t) =>
        assert t in Holders(st.threads, st.threads[t].slot);
        HoldersChange(st.threads, t, st.threads[t].(phase := Between), i);
      case Look(t) => HoldersChange(st.threads, t, st.threads[t].(phase := Gone), i);
    }
    hide InLife;
  }

  lemma NextLives(st: State, step: Step, t: nat)
    requires Inv(st) && Can(st, step) && t < |Next(st, step).threads|
    ensures InLife(Next(st, step), Next(st, step).threads[t])
  {
    if t < |st.threads| {
      assert InLife(st, st.threads[t]);
      if st.threads[t].phase.Holding? {
        assert t in Holders(st.threads, st.threads[t].slot);
      }
    }
    if step.Copy? {
      assert InLife(st, st.threads[step.t]);
    }
    hide Holders;
  }

  lemma NobodyHolds(st: State, i: nat)
    requires Inv(st) && i < |st.counts|
    ensures st.counts[i] == 0 <==> Holders(st.threads, i) == {}
  {
  }

  lemma {:induction false} RunInv(n: nat, steps: seq<Step>)
    ensures Inv(Run(n, steps)) && |Run(n, steps).counts| == n
  {
    if steps != [] {
      RunInv(n, steps[..|steps| - 1]);
      NextInv(Run(n, steps[..|steps| - 1]), steps[|steps| - 1]);
    }
  }

  /** A slot can be taken if and only if no thread holds a block of it; and then the thread that takes it is alone. */
  lemma {:induction false} TakenWhenFree(n: nat, steps: seq<Step>, i: nat)
    requires i < n
    ensures var st := Run(n, steps); var next := Next(st, Try(i));
      && (next != st <==> Holders(st.threads, i) == {})
      && (next != st ==> Holders(next.threads, i) == {|st.threads|} && next.threads[..|st.threads|] == st.threads)
  {
    RunInv(n, steps);
    hide Run;
    var st := Run(n, steps);
    NobodyHolds(st, i);
    HoldersMore(st.threads, Thread(i, st.lives, Holding), i);
    hide Holders;
  }

  /** However others copy, let go and take slots meanwhile, all that hold a slot at one time got it from one taker. */
  lemma {:induction false} OneTaker(n: nat, steps: seq<Step>, t: nat, u: nat)
    requires var st := Run(n, steps); HoldsSome(st, t) && HoldsSome(st, u) && st.threads[t].slot == st.threads[u].slot
    ensures var st := Run(n, steps); st.threads[t].life == st.threads[u].life
  {
    RunInv(n, steps);
    hide Run;
    var st := Run(n, steps);
    assert InLife(st, st.threads[t]) && InLife(st, st.threads[u]);
  }
}
