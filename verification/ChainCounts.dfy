/** What the two thread counters of a chain guarantee, whatever happens: the last thread of a step and the last
    thread of the chain are recognised, once. */
module ChainCounts {
  import opened Chains
  import B = BQueues

  // ---------- totals ----------

  lemma {:induction false} TotalUpdate<A>(xs: seq<A>, i: nat, v: A, f: A -> nat)
    requires i < |xs|
    ensures f(xs[i]) <= Total(xs, f)
    ensures Total(xs[i := v], f) == Total(xs, f) - f(xs[i]) + f(v)
  {
    var n := |xs| - 1;
    if i == n {
      assert xs[i := v][..n] == xs[..n];
    } else {
      TotalUpdate(xs[..n], i, v, f);
      assert xs[i := v][..n] == xs[..n][i := v];
    }
  }

  lemma {:induction false} TotalZero<A>(xs: seq<A>, f: A -> nat)
    ensures Total(xs, f) == 0 <==> forall i | 0 <= i < |xs| :: f(xs[i]) == 0
  {
    if xs != [] {
      var n := |xs| - 1;
      TotalZero(xs[..n], f);
      assert forall i | 0 <= i < n :: xs[..n][i] == xs[i];
    }
  }

  lemma {:induction false} TotalSame<A, C>(xs: seq<A>, ys: seq<C>, f: A -> nat, g: C -> nat)
    requires |xs| == |ys| && forall i | 0 <= i < |xs| :: f(xs[i]) == g(ys[i])
    ensures Total(xs, f) == Total(ys, g)
  {
    if xs != [] {
      TotalSame(xs[..|xs| - 1], ys[..|ys| - 1], f, g);
    }
  }

  // ---------- what is counted ----------

  /** Still counted by its step. */
  function Active<T>(p: Phase<T>): nat {
    if p.Working? || p.Holding? || p.Leaving? then 1 else 0
  }

  /** Still counted by the chain. */
  function Counted<T>(p: Phase<T>): nat {
    if p.Finishing? || p.Done? then 0 else 1
  }

  function InFinals<T>(p: Phase<T>): nat {
    if p.Finishing? then 1 else 0
  }

  function ActiveIn<T>(g: Stage<T>): nat {
    Total(g.threads, Active)
  }

  function CountedIn<T>(g: Stage<T>): nat {
    Total(g.threads, Counted)
  }

  function FinalsIn<T>(g: Stage<T>): nat {
    Total(g.threads, InFinals)
  }

  ghost predicate StepCounts<T>(st: State<T>)
    requires Shaped(st)
  {
    forall s | 0 <= s < |st.stages| :: st.shared.nthread[s] == ActiveIn(st.stages[s])
  }

  /** The thread that shuts the queues of its step is its last one. */
  ghost predicate ShutsAlone<T>(st: State<T>)
    requires Shaped(st)
  {
    forall s, k | 0 <= s < |st.stages| && 0 <= k < |st.stages[s].threads| ::
      st.stages[s].threads[k] == Last || st.stages[s].threads[k] == LastIn ==> st.shared.nthread[s] == 0
  }

  /** While threads are counted nobody is at the finals; afterwards one is, until they have run. */
  ghost predicate ChainCount<T>(st: State<T>) {
    && st.shared.nthreads == Total(st.stages, CountedIn)
    && st.finals == (if st.shared.finalized then 1 else 0)
    && (if st.shared.nthreads > 0 then Total(st.stages, FinalsIn) == 0 && !st.shared.finalized
        else Total(st.stages, FinalsIn) + st.finals == 1)
    && (!st.shared.running ==> st.shared.nthreads == 0 && Total(st.stages, FinalsIn) == 0)
  }

  ghost predicate CountInv<T>(st: State<T>) {
    Shaped(st) && StepCounts(st) && ShutsAlone(st) && ChainCount(st)
  }

  lemma MoveCounts<T>(st: State<T>, sh: Shared<T>, s: nat, k: nat, p: Phase<T>, taken: seq<Item<T>>, put: seq<Item<T>>)
    requires s < |st.stages| && k < |st.stages[s].threads|
    ensures var was, now := st.stages[s].threads[k], Move(st, sh, s, k, p, taken, put).stages;
      && Active(was) <= ActiveIn(st.stages[s])
      && ActiveIn(now[s]) == ActiveIn(st.stages[s]) - Active(was) + Active(p)
      && Counted(was) <= Total(st.stages, CountedIn)
      && Total(now, CountedIn) == Total(st.stages, CountedIn) - Counted(was) + Counted(p)
      && InFinals(was) <= Total(st.stages, FinalsIn)
      && Total(now, FinalsIn) == Total(st.stages, FinalsIn) - InFinals(was) + InFinals(p)
  {
    var g := st.stages[s];
    var g' := Stage(g.threads[k := p], taken, put);
    TotalUpdate(g.threads, k, p, Active);
    TotalUpdate(g.threads, k, p, Counted);
    TotalUpdate(g.threads, k, p, InFinals);
    TotalUpdate(st.stages, s, g', CountedIn);
    TotalUpdate(st.stages, s, g', FinalsIn);
  }

  /** A thread that stays where it is counted keeps all counts. */
  lemma InnerMoveKeeps<T>(st: State<T>, sh: Shared<T>, s: nat, k: nat, p: Phase<T>,
                          taken: seq<Item<T>>, put: seq<Item<T>>)
    requires CountInv(st) && s < |st.stages| && k < |st.stages[s].threads|
    requires sh == st.shared.(queues := sh.queues) && |sh.queues| == |st.shared.queues|
    requires Active(st.stages[s].threads[k]) == Active(p) && Counted(st.stages[s].threads[k]) == 1 == Counted(p)
    requires p == Last || p == LastIn ==> st.stages[s].threads[k] == Last
    ensures CountInv(Move(st, sh, s, k, p, taken, put))
  {
    hide Total;
    MoveCounts(st, sh, s, k, p, taken, put);
  }

  lemma SignOffKeeps<T>(st: State<T>, s: nat, k: nat)
    requires CountInv(st) && At(st, s, k, Leaving)
    ensures var (sh, last) := SignOff(st.shared, s);
      CountInv(Go(st, sh, s, k, if last then Last else Counting))
  {
    hide Total;
    var (sh, last) := SignOff(st.shared, s);
    MoveCounts(st, sh, s, k, if last then Last else Counting, st.stages[s].taken, st.stages[s].put);
  }

  lemma CountDownKeeps<T>(st: State<T>, s: nat, k: nat)
    requires CountInv(st) && At(st, s, k, Counting)
    ensures var (sh, last) := CountDown(st.shared);
      CountInv(Go(st, sh, s, k, if last then Finishing else Done))
  {
    hide Total;
    var (sh, last) := CountDown(st.shared);
    MoveCounts(st, sh, s, k, if last then Finishing else Done, st.stages[s].taken, st.stages[s].put);
  }

  /** Whoever reaches the finals finds them not run yet and the chain still running. */
  lemma FinalsKeeps<T>(c: Config<T>, st: State<T>, s: nat, k: nat)
    requires CountInv(st) && At(st, s, k, Finishing)
    ensures RunsFinals(st.shared)
    ensures CountInv(Next(c, st, Finals(s, k)))
  {
    hide Total;
    MoveCounts(st, st.shared.(finalized := true), s, k, Done, st.stages[s].taken, st.stages[s].put);
  }

  lemma JoinKeeps<T>(c: Config<T>, st: State<T>)
    requires CountInv(st)
    ensures CountInv(Next(c, st, Join))
  {
    if Can(st, Join) {
      AllDoneCounts(st);
    }
  }

  lemma AllDoneCounts<T>(st: State<T>)
    requires AllDone(st)
    ensures Total(st.stages, CountedIn) == 0 && Total(st.stages, FinalsIn) == 0
  {
    forall s | 0 <= s < |st.stages|
      ensures CountedIn(st.stages[s]) == 0 && FinalsIn(st.stages[s]) == 0
    {
      TotalZero(st.stages[s].threads, Counted);
      TotalZero(st.stages[s].threads, InFinals);
    }
    TotalZero(st.stages, CountedIn);
    TotalZero(st.stages, FinalsIn);
  }

  lemma NextCounts<T>(c: Config<T>, st: State<T>, act: Act<T>)
    requires CountInv(st)
    ensures CountInv(Next(c, st, act))
  {
    if Can(st, act) {
      hide CountInv;
      match act
      case Leave(s, k) => SignOffKeeps(st, s, k);
      case Count(s, k) => CountDownKeeps(st, s, k);
      case Finals(s, k) => FinalsKeeps(c, st, s, k);
      case Join => JoinKeeps(c, st);
      case _ => InnerNext(c, st, act);
    }
  }

  /** The acts that change no count. */
  lemma InnerNext<T>(c: Config<T>, st: State<T>, act: Act<T>)
    requires CountInv(st) && Can(st, act)
    requires !act.Leave? && !act.Count? && !act.Finals? && !act.Join?
    ensures CountInv(Next(c, st, act))
  {
    hide Total, StepCounts, ShutsAlone, ChainCount;
    match act
    case StopGently(cancel) => QueuesOnly(st, Next(c, st, act));
    case DisableBluntly(q) => QueuesOnly(st, Next(c, st, act));
    case Produce(k, v) => InnerOutput(st, 0, k, Item(|st.stages[0].put|, v));
    case Quit(k) => InnerGo(st, st.shared, 0, k, Leaving);
    case Take(s, k) => InnerInput(st, s, k);
    case Put(s, k) =>
      var x := st.stages[s].threads[k].x;
      InnerOutput(st, s, k, Item(x.id, c.work(s, x.value)));
    case Abandon(s, k) =>
      InnerGo(st, st.shared, s, k, Leaving);
      QueuesOnly(Go(st, st.shared, s, k, Leaving), Next(c, st, act));
    case CloseOutput(s, k) => InnerGo(st, ShutOutput(st.shared, s), s, k, LastIn);
    case CloseInput(s, k) => InnerGo(st, ShutInput(st.shared, s), s, k, Counting);
  }

  lemma InnerGo<T>(st: State<T>, sh: Shared<T>, s: nat, k: nat, p: Phase<T>)
    requires CountInv(st) && s < |st.stages| && k < |st.stages[s].threads|
    requires sh == st.shared.(queues := sh.queues) && |sh.queues| == |st.shared.queues|
    requires Active(st.stages[s].threads[k]) == Active(p) && Counted(st.stages[s].threads[k]) == 1 == Counted(p)
    requires p == Last || p == LastIn ==> st.stages[s].threads[k] == Last
    ensures CountInv(Go(st, sh, s, k, p))
  {
    hide CountInv, Active, Counted;
    InnerMoveKeeps(st, sh, s, k, p, st.stages[s].taken, st.stages[s].put);
  }

  lemma InnerOutput<T>(st: State<T>, s: nat, k: nat, x: Item<T>)
    requires CountInv(st) && (At(st, s, k, Working) || HoldsAt(st, s, k))
    ensures CountInv(Output(st, s, k, x))
  {
    hide StepCounts, ShutsAlone, ChainCount;
    var put := st.stages[s].put + [x];
    if s == |st.shared.queues| {
      InnerMoveKeeps(st, st.shared, s, k, Working, st.stages[s].taken, put);
    } else if st.shared.queues[s].enablePush {
      InnerMoveKeeps(st, SetQueue(st.shared, s, B.PushCore(st.shared.queues[s], x)), s, k, Working,
                     st.stages[s].taken, put);
    } else {
      InnerGo(st, st.shared, s, k, Leaving);
    }
  }

  lemma InnerInput<T>(st: State<T>, s: nat, k: nat)
    requires CountInv(st) && s > 0 && At(st, s, k, Working) && !B.PopBlocked(st.shared.queues[s - 1])
    ensures CountInv(Input(st, s, k))
  {
    hide StepCounts, ShutsAlone, ChainCount;
    var q := st.shared.queues[s - 1];
    var sh := SetQueue(st.shared, s - 1, B.PopCore(q));
    if q.enablePop {
      InnerMoveKeeps(st, sh, s, k, Holding(q.items[0]), st.stages[s].taken + [q.items[0]], st.stages[s].put);
    } else {
      InnerGo(st, sh, s, k, Leaving);
    }
  }

  lemma QueuesOnly<T>(st: State<T>, next: State<T>)
    requires CountInv(st) && next.stages == st.stages && next.finals == st.finals
    requires next.shared == st.shared.(queues := next.shared.queues, cancelled := next.shared.cancelled)
    requires |next.shared.queues| == |st.shared.queues|
    ensures CountInv(next)
  {
  }

  lemma InitCounts<T>(c: Config<T>)
    requires Sensible(c)
    ensures CountInv(Init(c))
  {
    var st := Init(c);
    forall s | 0 <= s < |st.stages|
      ensures ActiveIn(st.stages[s]) == c.sizes[s] == CountedIn(st.stages[s]) && FinalsIn(st.stages[s]) == 0
    {
      AllWorking(st.stages[s].threads);
    }
    TotalSame(c.sizes, st.stages, Itself, CountedIn);
    TotalZero(st.stages, FinalsIn);
    TotalUpdate(c.sizes, 0, 0, Itself);
  }

  lemma {:induction false} AllWorking<T>(threads: seq<Phase<T>>)
    requires forall k | 0 <= k < |threads| :: threads[k] == Working
    ensures Total(threads, Active) == |threads| == Total(threads, Counted) && Total(threads, InFinals) == 0
  {
    if threads != [] {
      AllWorking(threads[..|threads| - 1]);
    }
  }

  lemma {:induction false} RunCounts<T>(c: Config<T>, acts: seq<Act<T>>)
    requires Sensible(c)
    ensures CountInv(Run(c, acts))
  {
    if acts == [] {
      InitCounts(c);
    } else {
      RunCounts(c, acts[..|acts| - 1]);
      NextCounts(c, Run(c, acts[..|acts| - 1]), acts[|acts| - 1]);
    }
  }

  // ---------- what follows for every run ----------

  /** The finals run at most once, and exactly once by the time every thread is gone; until then the chain is
      not marked as stopped. */
  lemma {:induction false} FinalsOnce<T>(c: Config<T>, acts: seq<Act<T>>)
    requires Sensible(c)
    ensures var st := Run(c, acts);
      && st.finals <= 1
      && (AllDone(st) ==> st.finals == 1)
      && (st.finals == 1 || !st.shared.running ==>
            forall s, k | 0 <= s < |st.stages| && 0 <= k < |st.stages[s].threads| ::
            st.stages[s].threads[k] == Done)
  {
    RunCounts(c, acts);
    hide Run;
    var st := Run(c, acts);
    if AllDone(st) {
      AllDoneCounts(st);
    }
    if st.finals == 1 || !st.shared.running {
      NobodyCounted(st);
    }
  }

  lemma NobodyCounted<T>(st: State<T>)
    requires Total(st.stages, CountedIn) == 0 && Total(st.stages, FinalsIn) == 0
    ensures AllDone(st)
  {
    TotalZero(st.stages, CountedIn);
    TotalZero(st.stages, FinalsIn);
    forall s, k | 0 <= s < |st.stages| && 0 <= k < |st.stages[s].threads|
      ensures st.stages[s].threads[k] == Done
    {
      assert CountedIn(st.stages[s]) == 0 && FinalsIn(st.stages[s]) == 0;
      TotalZero(st.stages[s].threads, Counted);
      TotalZero(st.stages[s].threads, InFinals);
      assert Counted(st.stages[s].threads[k]) == 0 && InFinals(st.stages[s].threads[k]) == 0;
    }
  }

  /** No step shuts a queue while one of its threads is still in the step's function, with an element or without. */
  lemma {:induction false} NobodyLeftWhenShutting<T>(c: Config<T>, acts: seq<Act<T>>, s: nat, k: nat, other: nat)
    requires Sensible(c)
    requires At(Run(c, acts), s, k, Last) || At(Run(c, acts), s, k, LastIn)
    requires other < |Run(c, acts).stages[s].threads|
    ensures var p := Run(c, acts).stages[s].threads[other]; !p.Working? && !p.Holding? && !p.Leaving?
  {
    RunCounts(c, acts);
    hide Run;
    var st := Run(c, acts);
    assert ActiveIn(st.stages[s]) == 0;
    TotalZero(st.stages[s].threads, Active);
    assert Active(st.stages[s].threads[other]) == 0;
  }
}
