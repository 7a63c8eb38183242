/** A chain never deadlocks: some thread can always move until all are gone, and once it is stopped only so often. */
module ChainDrain {
  import opened Chains
  import opened ChainCounts
  import opened ChainFlow
  import B = BQueues

  /** What a thread does by itself, a producer that would rather stop or a step that gives up left aside. */
  ghost predicate ByThread<T>(act: Act<T>) {
    !act.Quit? && !act.Abandon? && !act.StopGently? && !act.DisableBluntly? && !act.Join?
  }

  ghost predicate Stuck<T(!new)>(st: State<T>)
    requires Shaped(st)
  {
    forall act: Act<T> | ByThread(act) :: !Can(st, act)
  }

  // ---------- some thread can move ----------

  /** The act that thread (s, k), being at p, does next; v is what a producer may come up with. */
  function ItsMove<T>(p: Phase<T>, s: nat, k: nat, v: T): Act<T> {
    match p
    case Working => if s == 0 then Produce(k, v) else Take(s, k)
    case Holding(x) => Put(s, k)
    case Leaving => Leave(s, k)
    case Last => CloseOutput(s, k)
    case LastIn => CloseInput(s, k)
    case Counting => Count(s, k)
    case Finishing => Finals(s, k)
    case Done => Join
  }

  /** In a stuck chain every thread is gone or blocked on a queue. */
  lemma StuckThread<T(0,!new)>(st: State<T>, s: nat, k: nat)
    requires Shaped(st) && Stuck(st) && s < |st.stages| && k < |st.stages[s].threads|
    ensures var p := st.stages[s].threads[k];
      || p == Done
      || (p == Working && s == 0 && B.PushBlocked(st.shared.queues[0]))
      || (p == Working && s > 0 && B.PopBlocked(st.shared.queues[s - 1]))
      || (p.Holding? && (s == 0 || (s < |st.shared.queues| && B.PushBlocked(st.shared.queues[s]))))
  {
    var v: T :| true;
    var p := st.stages[s].threads[k];
    if p != Done {
      var move := ItsMove(p, s, k, v);
      assert ByThread(move);
      assert !Can(st, move);
    }
  }

  ghost predicate Roomy<T>(st: State<T>) {
    && (forall q | 0 <= q < |st.shared.queues| :: st.shared.queues[q].capacity > 0)
    && (forall s | 0 <= s < |st.stages| :: |st.stages[s].threads| > 0)
  }

  /** A thread of the step is about to shut the queue behind it, or also the one before it. */
  ghost predicate SomeLast<T>(g: Stage<T>, input: bool) {
    exists k :: 0 <= k < |g.threads| && (g.threads[k] == Last || (input && g.threads[k] == LastIn))
  }

  /** A step whose threads have all signed off has shut the queue behind it and disabled the one before it, or its last
      thread is about to. This holds whatever stops the chain, and whatever step gives up. */
  ghost predicate EndAt<T>(st: State<T>, q: nat)
    requires Shaped(st) && q < |st.shared.queues|
  {
    var core := st.shared.queues[q];
    && B.CoreInv(core)
    && (st.shared.nthread[q] == 0 && core.enablePush ==> SomeLast(st.stages[q], false))
    && (st.shared.nthread[q + 1] == 0 && (core.enablePush || core.enablePop) ==> SomeLast(st.stages[q + 1], true))
  }

  ghost predicate EndInv<T>(st: State<T>)
    requires Shaped(st)
  {
    && (forall q | 0 <= q < |st.shared.queues| :: EndAt(st, q))
    && (forall k | 0 <= k < |st.stages[0].threads| :: !st.stages[0].threads[k].Holding?)
  }

  lemma MoveSome<T>(g: Stage<T>, h: Stage<T>, k: nat, p: Phase<T>, input: bool)
    requires k < |g.threads| && h.threads == g.threads[k := p]
    ensures p == Last || (input && p == LastIn) ==> SomeLast(h, input)
    ensures SomeLast(g, input) && g.threads[k] != Last && !(input && g.threads[k] == LastIn) ==> SomeLast(h, input)
  {
    if p == Last || (input && p == LastIn) {
      assert h.threads[k] == p;
    } else if SomeLast(g, input) && g.threads[k] != Last && !(input && g.threads[k] == LastIn) {
      var j :| 0 <= j < |g.threads| && (g.threads[j] == Last || (input && g.threads[j] == LastIn));
      assert h.threads[j] == g.threads[j];
    }
  }

  /** A thread that is not shutting anything moves, with one queue pushed to or popped from. */
  lemma PlainMove<T>(st: State<T>, next: State<T>, s: nat, k: nat, p: Phase<T>, q: nat)
    requires Shaped(st) && Shaped(next) && |next.stages| == |st.stages| && s < |st.stages|
    requires k < |st.stages[s].threads| && st.stages[s].threads[k] != Last && st.stages[s].threads[k] != LastIn
    requires next.stages[s].threads == st.stages[s].threads[k := p]
    requires forall j | 0 <= j < |st.stages| && j != s :: next.stages[j] == st.stages[j]
    requires next.shared.nthread == st.shared.nthread && q < |st.shared.queues| && EndAt(st, q)
    requires var was, now := st.shared.queues[q], next.shared.queues[q];
      B.CoreInv(now) && (now.enablePush ==> was.enablePush) && (now.enablePop ==> was.enablePop)
    ensures EndAt(next, q)
  {
    MoveSome(st.stages[s], next.stages[s], k, p, false);
    MoveSome(st.stages[s], next.stages[s], k, p, true);
    hide SomeLast, B.CoreInv;
  }

  lemma EndOutput<T>(st: State<T>, s: nat, k: nat, x: Item<T>, q: nat)
    requires Shaped(st) && s < |st.stages| && k < |st.stages[s].threads| && q < |st.shared.queues| && EndAt(st, q)
    requires st.stages[s].threads[k] != Last && st.stages[s].threads[k] != LastIn
    ensures EndAt(Output(st, s, k, x), q)
  {
    var next := Output(st, s, k, x);
    PlainMove(st, next, s, k, next.stages[s].threads[k], q);
    hide EndAt;
  }

  lemma EndInput<T>(st: State<T>, s: nat, k: nat, q: nat)
    requires Shaped(st) && 0 < s < |st.stages| && k < |st.stages[s].threads| && q < |st.shared.queues| && EndAt(st, q)
    requires !B.PopBlocked(st.shared.queues[s - 1]) && st.stages[s].threads[k] == Working
    ensures EndAt(Input(st, s, k), q)
  {
    var next := Input(st, s, k);
    PlainMove(st, next, s, k, next.stages[s].threads[k], q);
    hide EndAt;
  }

  lemma EndGo<T>(st: State<T>, s: nat, k: nat, p: Phase<T>, q: nat)
    requires Shaped(st) && s < |st.stages| && k < |st.stages[s].threads| && q < |st.shared.queues| && EndAt(st, q)
    requires st.stages[s].threads[k] != Last && st.stages[s].threads[k] != LastIn
    ensures EndAt(Go(st, st.shared, s, k, p), q)
  {
    PlainMove(st, Go(st, st.shared, s, k, p), s, k, p, q);
    hide EndAt;
  }

  lemma EndLeave<T>(st: State<T>, s: nat, k: nat, q: nat)
    requires Shaped(st) && At(st, s, k, Leaving) && q < |st.shared.queues| && EndAt(st, q)
    ensures var (sh, last) := SignOff(st.shared, s); EndAt(Go(st, sh, s, k, if last then Last else Counting), q)
  {
    var (sh, last) := SignOff(st.shared, s);
    var p := if last then Last else Counting;
    var next := Go(st, sh, s, k, p);
    MoveSome(st.stages[s], next.stages[s], k, p, false);
    MoveSome(st.stages[s], next.stages[s], k, p, true);
    hide SomeLast, B.CoreInv;
  }

  lemma EndClose<T>(st: State<T>, s: nat, k: nat, q: nat)
    requires Shaped(st) && q < |st.shared.queues| && EndAt(st, q)
    ensures At(st, s, k, Last) ==> EndAt(Go(st, ShutOutput(st.shared, s), s, k, LastIn), q)
    ensures At(st, s, k, LastIn) ==> EndAt(Go(st, ShutInput(st.shared, s), s, k, Counting), q)
  {
    if At(st, s, k, Last) {
      var next := Go(st, ShutOutput(st.shared, s), s, k, LastIn);
      MoveSome(st.stages[s], next.stages[s], k, LastIn, true);
      hide SomeLast;
    } else if At(st, s, k, LastIn) {
      var next := Go(st, ShutInput(st.shared, s), s, k, Counting);
      MoveSome(st.stages[s], next.stages[s], k, Counting, false);
      hide SomeLast;
    }
  }

  lemma EndKeepsAt<T>(c: Config<T>, st: State<T>, act: Act<T>, q: nat)
    requires Shaped(st) && EndInv(st) && Can(st, act) && q < |st.shared.queues|
    ensures |Next(c, st, act).shared.queues| == |st.shared.queues| && EndAt(Next(c, st, act), q)
  {
    assert EndAt(st, q);
    hide EndInv, Output, Input, SignOff, ShutInput, ShutOutput, Total, SomeLast;
    match act
    case Produce(k, v) => EndOutput(st, 0, k, Item(|st.stages[0].put|, v), q);
    case Quit(k) => EndGo(st, 0, k, Leaving, q);
    case Take(s, k) => EndInput(st, s, k, q);
    case Put(s, k) =>
      var x := st.stages[s].threads[k].x;
      EndOutput(st, s, k, Item(x.id, c.work(s, x.value)), q);
    case Abandon(s, k) => EndGo(st, s, k, Leaving, q);
    case Leave(s, k) => EndLeave(st, s, k, q);
    case CloseOutput(s, k) => EndClose(st, s, k, q);
    case CloseInput(s, k) => EndClose(st, s, k, q);
    case _ => EndRest(c, st, act, q);
  }

  lemma EndRest<T>(c: Config<T>, st: State<T>, act: Act<T>, q: nat)
    requires Shaped(st) && Can(st, act) && q < |st.shared.queues| && EndAt(st, q)
    requires act.Count? || act.Finals? || act.StopGently? || act.DisableBluntly? || act.Join?
    ensures |Next(c, st, act).shared.queues| == |st.shared.queues| && EndAt(Next(c, st, act), q)
  {
    if act.Count? || act.Finals? {
      EndGo(st, act.s, act.k, Next(c, st, act).stages[act.s].threads[act.k], q);
    }
    hide SomeLast;
  }

  lemma SourceEmptyHanded<T>(c: Config<T>, st: State<T>, act: Act<T>)
    requires Shaped(st) && Can(st, act)
    requires forall k | 0 <= k < |st.stages[0].threads| :: !st.stages[0].threads[k].Holding?
    ensures forall k | 0 <= k < |Next(c, st, act).stages[0].threads| :: !Next(c, st, act).stages[0].threads[k].Holding?
  {
    hide Total, B.PushCore, B.PopCore, B.DelayedDisableCore, B.DisableCore, SignOff, CountDown, RunsFinals, GentleStop,
      ShutOutput, ShutInput;
  }

  lemma {:induction false} RunEnds<T>(c: Config<T>, acts: seq<Act<T>>)
    requires Sensible(c)
    ensures EndInv(Run(c, acts))
  {
    if acts == [] {
      StartEnds(c);
    } else {
      var st, act := Run(c, acts[..|acts| - 1]), acts[|acts| - 1];
      RunEnds(c, acts[..|acts| - 1]);
      if Can(st, act) {
        SourceEmptyHanded(c, st, act);
        forall q | 0 <= q < |st.shared.queues|
          ensures |Next(c, st, act).shared.queues| == |st.shared.queues| && EndAt(Next(c, st, act), q)
        {
          EndKeepsAt(c, st, act, q);
        }
      }
      hide Next, EndAt;
    }
  }

  lemma StartEnds<T>(c: Config<T>)
    requires Sensible(c)
    ensures EndInv(Init(c))
  {
  }

  /** From the last step backwards: a full queue has a reader that can move. */
  lemma {:induction false} NoneFull<T(0,!new)>(st: State<T>, q: nat)
    requires CountInv(st) && EndInv(st) && Stuck(st) && Roomy(st) && q < |st.shared.queues|
    ensures !B.PushBlocked(st.shared.queues[q])
    decreases |st.stages| - q
  {
    if B.PushBlocked(st.shared.queues[q]) {
      assert EndAt(st, q);
      var behind := st.stages[q + 1].threads;
      forall j | 0 <= j < |behind|
        ensures behind[j] == Done
      {
        StuckThread(st, q + 1, j);
        if q + 1 < |st.shared.queues| {
          NoneFull(st, q + 1);
        }
      }
      TotalZero(behind, Active);
    }
  }

  /** From the first step onwards: a step whose predecessor is gone finds its input shut. */
  lemma {:induction false} StepDone<T(0,!new)>(st: State<T>, s: nat, k: nat)
    requires CountInv(st) && EndInv(st) && Stuck(st) && Roomy(st)
    requires s < |st.stages| && k < |st.stages[s].threads|
    ensures st.stages[s].threads[k] == Done
    decreases s
  {
    StuckThread(st, s, k);
    if s < |st.shared.queues| {
      NoneFull(st, s);
    }
    if s > 0 {
      var before := st.stages[s - 1].threads;
      forall j | 0 <= j < |before|
        ensures before[j] == Done
      {
        StepDone(st, s - 1, j);
      }
      TotalZero(before, Active);
      assert EndAt(st, s - 1);
    }
  }

  /** There is no deadlock: in every run, however it was stopped and whatever step has given up, either some thread can
      move, or all threads are gone and the finals were run once. */
  lemma {:induction false} NeverStuck<T(0,!new)>(c: Config<T>, acts: seq<Act<T>>)
    requires Sensible(c) && (forall q | 0 <= q < |c.caps| :: c.caps[q] > 0)
    ensures AllDone(Run(c, acts)) || exists act: Act<T> :: ByThread(act) && Can(Run(c, acts), act)
    ensures AllDone(Run(c, acts)) ==> Run(c, acts).finals == 1
  {
    RunCounts(c, acts);
    RunEnds(c, acts);
    RunShape(c, acts);
    FinalsOnce(c, acts);
    hide Run;
    var st := Run(c, acts);
    if Stuck(st) {
      forall s, k | 0 <= s < |st.stages| && 0 <= k < |st.stages[s].threads|
        ensures st.stages[s].threads[k] == Done
      {
        StepDone(st, s, k);
      }
    }
  }

  // ---------- and only so often ----------

  /** How many moves a thread has before it, d steps from the end of the chain. */
  function PhaseWeight<T>(d: nat): Phase<T> -> nat {
    (p: Phase<T>) => match p
      case Working => 6
      case Holding(_) => 5 + 2 * d
      case Leaving => 5
      case Last => 4
      case LastIn => 3
      case Counting => 2
      case Finishing => 1
      case Done => 0
  }

  function StageSum<T>(stages: seq<Stage<T>>): nat {
    if stages == [] then 0 else Total(stages[0].threads, PhaseWeight(|stages|)) + StageSum(stages[1..])
  }

  function QueueSum<T>(queues: seq<B.Core<Item<T>>>): nat {
    if queues == [] then 0 else |queues[0].items| * (2 * |queues|) + QueueSum(queues[1..])
  }

  /** An upper bound on the moves the threads still have. */
  function Measure<T>(st: State<T>): nat {
    StageSum(st.stages) + QueueSum(st.shared.queues)
  }

  lemma {:induction false} StageSumUpdate<T>(stages: seq<Stage<T>>, s: nat, k: nat, g: Stage<T>, p: Phase<T>)
    requires s < |stages| && k < |stages[s].threads| && g.threads == stages[s].threads[k := p]
    ensures var weight := PhaseWeight(|stages| - s);
      StageSum(stages[s := g]) == StageSum(stages) - weight(stages[s].threads[k]) + weight(p)
  {
    if s == 0 {
      TotalUpdate(stages[0].threads, k, p, PhaseWeight(|stages|));
      assert stages[0 := g][1..] == stages[1..];
    } else {
      StageSumUpdate(stages[1..], s - 1, k, g, p);
      assert stages[s := g][1..] == stages[1..][s - 1 := g];
    }
  }

  lemma {:induction false} QueueSumUpdate<T>(queues: seq<B.Core<Item<T>>>, q: nat, core: B.Core<Item<T>>)
    requires q < |queues|
    ensures QueueSum(queues[q := core])
         == QueueSum(queues) + (|core.items| - |queues[q].items|) * (2 * (|queues| - q))
  {
    if q == 0 {
      assert queues[0 := core][1..] == queues[1..];
      Distribute(|core.items|, |queues[0].items|, 2 * |queues|);
    } else {
      QueueSumUpdate(queues[1..], q - 1, core);
      assert queues[q := core][1..] == queues[1..][q - 1 := core];
    }
  }

  lemma Distribute(a: int, b: int, n: int)
    ensures (a - b) * n == a * n - b * n
  {
  }

  /** The first queue takes nothing any more. */
  ghost predicate Shut<T>(st: State<T>)
    requires Shaped(st)
  {
    !st.shared.queues[0].enablePush
  }

  /** What is not done by a thread. */
  ghost predicate Outside<T>(act: Act<T>) {
    act.StopGently? || act.DisableBluntly? || act.Join?
  }

  /** Every move of a thread uses up some of the bound, a producer that stops and a step that gives up included, and the
      first queue stays shut. */
  lemma MoveDecreases<T>(c: Config<T>, st: State<T>, act: Act<T>)
    requires Shaped(st) && Shut(st) && !Outside(act) && Can(st, act)
    ensures Measure(Next(c, st, act)) < Measure(st)
    ensures Shut(Next(c, st, act))
  {
    hide StageSum, QueueSum, Total, Input;
    match act
    case Produce(k, v) => GoMeasure(st, st.shared, 0, k, Leaving);
    case Quit(k) => GoMeasure(st, st.shared, 0, k, Leaving);
    case Take(s, k) => TakeMeasure(st, s, k);
    case Put(s, k) =>
      var x := st.stages[s].threads[k].x;
      PutMeasure(st, s, k, Item(x.id, c.work(s, x.value)));
    case Abandon(s, k) => GoMeasure(st, st.shared, s, k, Leaving);
    case Leave(s, k) =>
      var (sh, last) := SignOff(st.shared, s);
      GoMeasure(st, sh, s, k, if last then Last else Counting);
    case CloseOutput(s, k) =>
      ShutMeasure(st.shared, s);
      GoMeasure(st, ShutOutput(st.shared, s), s, k, LastIn);
    case CloseInput(s, k) =>
      ShutMeasure(st.shared, s);
      GoMeasure(st, ShutInput(st.shared, s), s, k, Counting);
    case Count(s, k) =>
      var (sh, last) := CountDown(st.shared);
      GoMeasure(st, sh, s, k, if last then Finishing else Done);
    case Finals(s, k) => GoMeasure(st, Next(c, st, act).shared, s, k, Done);
  }

  /** What happens from outside gives no thread more to do. */
  lemma OutsideMeasure<T>(c: Config<T>, st: State<T>, act: Act<T>)
    requires Shaped(st) && Shut(st) && Outside(act) && Can(st, act)
    ensures Measure(Next(c, st, act)) <= Measure(st)
    ensures Shut(Next(c, st, act))
  {
    hide StageSum, QueueSum, Total;
    if act.StopGently? {
      ShutMeasure(st.shared, 0);
    } else if act.DisableBluntly? {
      ShutMeasure(st.shared, act.q + 1);
    }
  }

  lemma GoMeasure<T>(st: State<T>, sh: Shared<T>, s: nat, k: nat, p: Phase<T>)
    requires s < |st.stages| && k < |st.stages[s].threads|
    requires QueueSum(sh.queues) <= QueueSum(st.shared.queues)
    requires var weight := PhaseWeight(|st.stages| - s); weight(p) < weight(st.stages[s].threads[k])
    ensures Measure(Go(st, sh, s, k, p)) < Measure(st)
  {
    hide StageSum, QueueSum, Total;
    StageSumUpdate(st.stages, s, k, Go(st, sh, s, k, p).stages[s], p);
  }

  lemma ShutMeasure<T>(sh: Shared<T>, s: nat)
    ensures QueueSum(ShutOutput(sh, s).queues) <= QueueSum(sh.queues)
    ensures QueueSum(ShutInput(sh, s).queues) <= QueueSum(sh.queues)
  {
    if s < |sh.queues| {
      QueueSumUpdate(sh.queues, s, B.DelayedDisableCore(sh.queues[s]));
    }
    if 0 < s <= |sh.queues| {
      QueueSumUpdate(sh.queues, s - 1, B.DisableCore(sh.queues[s - 1]));
      Distribute(0, |sh.queues[s - 1].items|, 2 * (|sh.queues| - (s - 1)));
    }
  }

  lemma TakeMeasure<T>(st: State<T>, s: nat, k: nat)
    requires Shaped(st) && 0 < s && At(st, s, k, Working) && !B.PopBlocked(st.shared.queues[s - 1])
    ensures Measure(Input(st, s, k)) < Measure(st)
    ensures Shut(st) ==> Shut(Input(st, s, k))
  {
    hide StageSum, QueueSum, Total;
    var next := Input(st, s, k);
    var q := st.shared.queues[s - 1];
    StageSumUpdate(st.stages, s, k, next.stages[s], next.stages[s].threads[k]);
    QueueSumUpdate(st.shared.queues, s - 1, B.PopCore(q));
  }

  lemma PutMeasure<T>(st: State<T>, s: nat, k: nat, x: Item<T>)
    requires Shaped(st) && 0 < s && HoldsAt(st, s, k)
    ensures Measure(Output(st, s, k, x)) < Measure(st)
  {
    hide StageSum, QueueSum, Total;
    var next := Output(st, s, k, x);
    StageSumUpdate(st.stages, s, k, next.stages[s], next.stages[s].threads[k]);
    if s < |st.shared.queues| {
      QueueSumUpdate(st.shared.queues, s, B.PushCore(st.shared.queues[s], x));
    }
  }

  /** Where any further acts lead from st. */
  ghost function After<T>(c: Config<T>, st: State<T>, acts: seq<Act<T>>): (next: State<T>)
    requires Shaped(st)
    ensures Shaped(next)
  {
    hide Next;
    if acts == [] then st else Next(c, After(c, st, acts[..|acts| - 1]), acts[|acts| - 1])
  }

  /** How many of them are moves that a thread made. */
  ghost function Moves<T>(c: Config<T>, st: State<T>, acts: seq<Act<T>>): nat
    requires Shaped(st)
  {
    if acts == [] then 0
    else
      var n := |acts| - 1;
      Moves(c, st, acts[..n]) + (if !Outside(acts[n]) && Can(After(c, st, acts[..n]), acts[n]) then 1 else 0)
  }

  /** Once the first queue is shut the threads make no more moves than there were weights left, whatever else is
      stopped, disabled or given up meanwhile. */
  lemma {:induction false} MovesBounded<T>(c: Config<T>, st: State<T>, acts: seq<Act<T>>)
    requires Shaped(st) && Shut(st)
    ensures Moves(c, st, acts) + Measure(After(c, st, acts)) <= Measure(st)
    ensures Shut(After(c, st, acts))
  {
    if acts != [] {
      var n := |acts| - 1;
      var mid := After(c, st, acts[..n]);
      MovesBounded(c, st, acts[..n]);
      if !Can(mid, acts[n]) {
        assert Next(c, mid, acts[n]) == mid;
      } else if Outside(acts[n]) {
        OutsideMeasure(c, mid, acts[n]);
      } else {
        MoveDecreases(c, mid, acts[n]);
      }
      hide Next, Measure, Can, Shut;
    }
  }
}
