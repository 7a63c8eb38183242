/** What a chain does with its elements as long as nobody stops it bluntly: every step processes every element once,
    nothing is refused on the way, and after the gentle stop the chain runs dry. */
module ChainFlow {
  import opened Chains
  import opened ChainCounts
  import B = BQueues

  // ---------- elements of one step ----------

  ghost function Ids<T>(xs: seq<Item<T>>): set<nat> {
    set x | x in xs :: x.id
  }

  ghost predicate Distinct<T>(xs: seq<Item<T>>) {
    forall i, j | 0 <= i < j < |xs| :: xs[i].id != xs[j].id
  }

  ghost function Held<T>(threads: seq<Phase<T>>): set<nat> {
    set k | 0 <= k < |threads| && threads[k].Holding? :: threads[k].x.id
  }

  /** What a step has taken is what it has put out and what its threads hold, each element in one place. */
  ghost predicate Flow<T>(g: Stage<T>) {
    && Distinct(g.taken) && Distinct(g.put)
    && Ids(g.taken) == Ids(g.put) + Held(g.threads)
    && Ids(g.put) !! Held(g.threads)
    && (forall j, k | 0 <= j < k < |g.threads| && g.threads[j].Holding? && g.threads[k].Holding? ::
          g.threads[j].x.id != g.threads[k].x.id)
    && (forall k | 0 <= k < |g.threads| && g.threads[k].Holding? :: g.threads[k].x in g.taken)
  }

  /** The first step takes nothing and numbers what it puts out. */
  ghost predicate Source<T>(g: Stage<T>) {
    && g.taken == []
    && (forall k | 0 <= k < |g.threads| :: !g.threads[k].Holding?)
    && (forall i | 0 <= i < |g.put| :: g.put[i].id == i)
  }

  lemma IdsAppend<T>(xs: seq<Item<T>>, x: Item<T>)
    ensures Ids(xs + [x]) == Ids(xs) + {x.id}
  {
    var ys := xs + [x];
    assert ys[|xs|] == x;
    assert forall y | y in xs :: y in ys;
    assert forall y | y in ys :: y in xs || y == x;
  }

  lemma HeldUpdate<T>(threads: seq<Phase<T>>, k: nat, p: Phase<T>)
    requires k < |threads|
    requires forall i, j | 0 <= i < j < |threads| && threads[i].Holding? && threads[j].Holding? ::
               threads[i].x.id != threads[j].x.id
    ensures var rest := if threads[k].Holding? then Held(threads) - {threads[k].x.id} else Held(threads);
      Held(threads[k := p]) == if p.Holding? then rest + {p.x.id} else rest
  {
    var now := threads[k := p];
    assert now[k] == p;
    assert forall j | 0 <= j < |threads| && j != k :: now[j] == threads[j];
  }

  lemma TakeFlows<T>(g: Stage<T>, k: nat, x: Item<T>)
    requires Flow(g) && k < |g.threads| && g.threads[k].Working? && x.id !in Ids(g.taken)
    ensures Flow(Stage(g.threads[k := Holding(x)], g.taken + [x], g.put))
  {
    IdsAppend(g.taken, x);
    HeldUpdate(g.threads, k, Holding(x));
    forall i | 0 <= i < |g.taken|
      ensures g.taken[i].id in Ids(g.taken)
    {
      assert g.taken[i] in g.taken;
    }
    forall j | 0 <= j < |g.threads| && g.threads[j].Holding?
      ensures g.threads[j].x.id in Held(g.threads)
    {
    }
    hide Ids, Held;
  }

  lemma PutFlows<T>(g: Stage<T>, k: nat, y: Item<T>)
    requires Flow(g) && k < |g.threads| && g.threads[k].Holding? && y.id == g.threads[k].x.id
    ensures Flow(Stage(g.threads[k := Working], g.taken, g.put + [y]))
  {
    IdsAppend(g.put, y);
    HeldUpdate(g.threads, k, Working);
    forall i | 0 <= i < |g.put|
      ensures g.put[i].id in Ids(g.put)
    {
      assert g.put[i] in g.put;
    }
    assert g.threads[k].x.id in Held(g.threads);
    hide Ids, Held;
  }

  lemma ExitFlows<T>(g: Stage<T>, k: nat, p: Phase<T>)
    requires Flow(g) && k < |g.threads| && !g.threads[k].Holding? && !p.Holding?
    ensures Flow(Stage(g.threads[k := p], g.taken, g.put))
  {
    HeldUpdate(g.threads, k, p);
    hide Ids, Held;
  }

  // ---------- values ----------

  /** What the first s steps make of a value. */
  ghost function Applied<T>(work: (nat, T) -> T, s: nat, v: T): T {
    if s == 0 then v else work(s, Applied(work, s - 1, v))
  }

  /** Every element of xs has gone through s steps. */
  ghost predicate Made<T>(c: Config<T>, origin: seq<Item<T>>, s: nat, xs: seq<Item<T>>) {
    forall i | 0 <= i < |xs| :: xs[i].id < |origin| && xs[i].value == Applied(c.work, s, origin[xs[i].id].value)
  }

  // ---------- two steps and the queue between them ----------

  ghost predicate Gone<T>(p: Phase<T>) {
    !p.Working? && !p.Holding?
  }

  /** The queue holds what the upper step has put and the lower one not taken; a lower thread leaves only when the
      queue is dry; an upper step other than the first finds its queue open until its last thread shuts it. */
  ghost predicate Link<T>(q: B.Core<Item<T>>, up: Stage<T>, down: Stage<T>, n: nat, first: bool) {
    && B.CoreInv(q)
    && up.put == down.taken + q.items
    && ((exists k :: 0 <= k < |down.threads| && Gone(down.threads[k])) ==> !q.enablePop)
    && (!first && !q.enablePush ==> n == 0)
    && (n == 0 && q.enablePush ==> exists k :: 0 <= k < |up.threads| && up.threads[k] == Last)
  }

  ghost predicate CleanInv<T>(c: Config<T>, st: State<T>)
    requires Shaped(st)
  {
    && Source(st.stages[0])
    && (forall s | 0 < s < |st.stages| :: Flow(st.stages[s]))
    && (forall s | 0 <= s < |st.stages| :: Made(c, st.stages[0].put, s, st.stages[s].put))
    && (forall q | 0 <= q < |st.shared.queues| :: LinkAt(st, q))
  }

  ghost predicate LinkAt<T>(st: State<T>, q: nat)
    requires Shaped(st) && q < |st.shared.queues|
  {
    Link(st.shared.queues[q], st.stages[q], st.stages[q + 1], st.shared.nthread[q], q == 0)
  }

  ghost predicate Clean<T>(act: Act<T>) {
    !act.Abandon? && !act.DisableBluntly?
  }

  // ---------- links are kept ----------

  lemma StillActive<T>(st: State<T>, s: nat, k: nat)
    requires CountInv(st) && s < |st.stages| && k < |st.stages[s].threads|
    ensures Active(st.stages[s].threads[k]) == 1 ==> st.shared.nthread[s] > 0
  {
    TotalUpdate(st.stages[s].threads, k, st.stages[s].threads[k], Active);
  }

  lemma OutputLink<T>(st: State<T>, s: nat, k: nat, x: Item<T>, q: nat)
    requires Shaped(st) && s < |st.stages| && k < |st.stages[s].threads| && q < |st.shared.queues|
    requires !Gone(st.stages[s].threads[k]) && st.shared.nthread[s] > 0 && LinkAt(st, q)
    requires s > 0 ==> s == |st.shared.queues| || LinkAt(st, s)
    ensures LinkAt(Output(st, s, k, x), q)
    ensures s > 0 ==> Output(st, s, k, x).stages[s].put == st.stages[s].put + [x]
  {
  }

  lemma InputLink<T>(st: State<T>, s: nat, k: nat, q: nat)
    requires Shaped(st) && 0 < s < |st.stages| && k < |st.stages[s].threads| && q < |st.shared.queues|
    requires !Gone(st.stages[s].threads[k]) && st.shared.nthread[s] > 0 && LinkAt(st, q)
    requires !B.PopBlocked(st.shared.queues[s - 1])
    ensures LinkAt(Input(st, s, k), q)
  {
    var g := st.stages[s];
    if q == s - 1 {
      TakeLinks(st.shared.queues[q], st.stages[q], g, k, st.shared.nthread[q], q == 0);
      hide Link;
    } else if q == s {
      UpperMoves(st.shared.queues[q], g, st.stages[q + 1], k, Input(st, s, k).stages[s], st.shared.nthread[q], q == 0);
      hide Link;
    } else {
      hide Link;
    }
  }

  lemma TakeLinks<T>(q: B.Core<Item<T>>, up: Stage<T>, down: Stage<T>, k: nat, n: nat, first: bool)
    requires Link(q, up, down, n, first) && k < |down.threads| && !Gone(down.threads[k]) && !B.PopBlocked(q)
    ensures if q.enablePop
            then Link(B.PopCore(q), up,
                      Stage(down.threads[k := Holding(q.items[0])], down.taken + [q.items[0]], down.put), n, first)
            else Link(B.PopCore(q), up, Stage(down.threads[k := Leaving], down.taken, down.put), n, first)
  {
  }

  lemma UpperMoves<T>(q: B.Core<Item<T>>, up: Stage<T>, down: Stage<T>, k: nat, now: Stage<T>, n: nat, first: bool)
    requires Link(q, up, down, n, first) && n > 0 && now.put == up.put
    ensures Link(q, now, down, n, first)
  {
  }

  lemma SignOffLink<T>(st: State<T>, s: nat, k: nat, q: nat)
    requires CountInv(st) && At(st, s, k, Leaving) && q < |st.shared.queues| && LinkAt(st, q)
    ensures var (sh, last) := SignOff(st.shared, s);
      LinkAt(Go(st, sh, s, k, if last then Last else Counting), q)
  {
    StillActive(st, s, k);
    var (sh, last) := SignOff(st.shared, s);
    var next := Go(st, sh, s, k, if last then Last else Counting);
    assert last ==> next.stages[s].threads[k] == Last;
    hide CountInv, Total;
  }

  /** The last thread of a step finds the queue before it dry and shut already. */
  lemma InputShutAlready<T>(st: State<T>, s: nat, k: nat)
    requires Shaped(st) && 0 < s && At(st, s, k, LastIn) && LinkAt(st, s - 1)
    ensures ShutInput(st.shared, s) == st.shared
  {
    assert Gone(st.stages[s].threads[k]);
    var q := st.shared.queues[s - 1];
    assert B.DisableCore(q) == q;
  }

  lemma CloseOutputLink<T>(st: State<T>, s: nat, k: nat, q: nat)
    requires CountInv(st) && At(st, s, k, Last) && q < |st.shared.queues| && LinkAt(st, q)
    ensures LinkAt(Go(st, ShutOutput(st.shared, s), s, k, LastIn), q)
  {
    assert st.shared.nthread[s] == 0;
    assert Gone(st.stages[s].threads[k]);
    hide CountInv, Total;
  }

  /** Threads on their way out change no link. */
  lemma GoneMoves<T>(st: State<T>, sh: Shared<T>, s: nat, k: nat, p: Phase<T>, q: nat)
    requires Shaped(st) && s < |st.stages| && k < |st.stages[s].threads| && q < |st.shared.queues| && LinkAt(st, q)
    requires Gone(st.stages[s].threads[k]) && st.stages[s].threads[k] != Last
    requires sh.queues == st.shared.queues && sh.nthread == st.shared.nthread
    ensures LinkAt(Go(st, sh, s, k, p), q) || !Gone(p)
  {
    var was, now := st.stages[s].threads, st.stages[s].threads[k := p];
    assert forall j | 0 <= j < |was| && was[j] == Last :: now[j] == Last;
    assert forall j | 0 <= j < |was| && Gone(now[j]) :: Gone(was[j]);
  }

  lemma LinkKeeps<T>(c: Config<T>, st: State<T>, act: Act<T>, q: nat)
    requires CountInv(st) && CleanInv(c, st) && Can(st, act) && Clean(act) && q < |st.shared.queues|
    ensures LinkAt(Next(c, st, act), q)
  {
    hide StepCounts, ShutsAlone, ChainCount, Link, Flow, Made, Source;
    assert LinkAt(st, q);
    if act.Produce? || act.Put? || act.Take? || act.Quit? {
      WorkLink(c, st, act, q);
    } else {
      EndLink(c, st, act, q);
    }
  }

  lemma WorkLink<T>(c: Config<T>, st: State<T>, act: Act<T>, q: nat)
    requires CountInv(st) && CleanInv(c, st) && Can(st, act) && q < |st.shared.queues| && LinkAt(st, q)
    requires act.Produce? || act.Put? || act.Take? || act.Quit?
    ensures LinkAt(Next(c, st, act), q)
  {
    hide Total, Flow, Made, Source, ChainCount, StepCounts, ShutsAlone, Output, Input;
    match act
    case Produce(k, v) =>
      StillActive(st, 0, k);
      OutputLink(st, 0, k, Item(|st.stages[0].put|, v), q);
    case Put(s, k) =>
      StillActive(st, s, k);
      var x := st.stages[s].threads[k].x;
      assert s < |st.shared.queues| ==> LinkAt(st, s);
      OutputLink(st, s, k, Item(x.id, c.work(s, x.value)), q);
    case Take(s, k) =>
      StillActive(st, s, k);
      InputLink(st, s, k, q);
    case Quit(k) => StillActive(st, 0, k);
  }

  lemma EndLink<T>(c: Config<T>, st: State<T>, act: Act<T>, q: nat)
    requires CountInv(st) && CleanInv(c, st) && Can(st, act) && Clean(act) && q < |st.shared.queues| && LinkAt(st, q)
    requires !act.Produce? && !act.Put? && !act.Take? && !act.Quit?
    ensures LinkAt(Next(c, st, act), q)
  {
    hide Total, Flow, Made, Source, ChainCount, StepCounts, ShutsAlone;
    match act
    case Leave(s, k) => SignOffLink(st, s, k, q);
    case CloseOutput(s, k) => CloseOutputLink(st, s, k, q);
    case CloseInput(s, k) =>
      if s > 0 {
        assert LinkAt(st, s - 1);
        InputShutAlready(st, s, k);
      }
      GoneMoves(st, st.shared, s, k, Counting, q);
    case Count(s, k) =>
      var (sh, last) := CountDown(st.shared);
      GoneMoves(st, sh, s, k, if last then Finishing else Done, q);
    case Finals(s, k) =>
      GoneMoves(st, Next(c, st, act).shared, s, k, Done, q);
    case _ =>
  }

  // ---------- the elements of every step ----------

  lemma PutDistinct<T>(c: Config<T>, st: State<T>, s: nat)
    requires Shaped(st) && CleanInv(c, st) && s < |st.stages|
    ensures Distinct(st.stages[s].put)
  {
    if s > 0 {
      assert Flow(st.stages[s]);
    }
  }

  /** The element at the front of a queue has not been taken before. */
  lemma FrontIsNew<T>(put: seq<Item<T>>, taken: seq<Item<T>>, items: seq<Item<T>>)
    requires Distinct(put) && put == taken + items && items != []
    ensures items[0].id !in Ids(taken)
  {
    forall x | x in taken
      ensures x.id != items[0].id
    {
      var i :| 0 <= i < |taken| && taken[i] == x;
      assert put[i] == x && put[|taken|] == items[0];
    }
  }

  lemma FlowKeeps<T>(c: Config<T>, st: State<T>, act: Act<T>, s: nat)
    requires Shaped(st) && CleanInv(c, st) && Can(st, act) && Clean(act) && 0 < s < |st.stages|
    requires act.Put? && act.s < |st.shared.queues| ==> st.shared.queues[act.s].enablePush
    ensures Flow(Next(c, st, act).stages[s])
  {
    hide Made, Source, Total, Link, Flow, B.PushCore, B.PopCore, B.DelayedDisableCore, B.DisableCore, RunsFinals,
      GentleStop, ShutOutput, ShutInput;
    assert Flow(st.stages[s]);
    match act
    case Take(s0, k) =>
      if s0 == s {
        assert LinkAt(st, s - 1);
        TakeOrExit(c, st, s, k);
      }
    case Put(s0, k) =>
      if s0 == s {
        var x := st.stages[s].threads[k].x;
        PutFlows(st.stages[s], k, Item(x.id, c.work(s, x.value)));
      }
    case Leave(s0, k) =>
      if s0 == s {
        ExitFlows(st.stages[s], k, if SignOff(st.shared, s).1 then Last else Counting);
      }
    case CloseOutput(s0, k) => if s0 == s { ExitFlows(st.stages[s], k, LastIn); }
    case CloseInput(s0, k) => if s0 == s { ExitFlows(st.stages[s], k, Counting); }
    case Count(s0, k) =>
      if s0 == s {
        ExitFlows(st.stages[s], k, if CountDown(st.shared).1 then Finishing else Done);
      }
    case Finals(s0, k) => if s0 == s { ExitFlows(st.stages[s], k, Done); }
    case _ =>
  }

  lemma TakeOrExit<T>(c: Config<T>, st: State<T>, s: nat, k: nat)
    requires Shaped(st) && CleanInv(c, st) && 0 < s && At(st, s, k, Working) && !B.PopBlocked(st.shared.queues[s - 1])
    ensures Flow(Input(st, s, k).stages[s])
  {
    hide Made, Total;
    assert LinkAt(st, s - 1) && Flow(st.stages[s]);
    var q := st.shared.queues[s - 1];
    PutDistinct(c, st, s - 1);
    hide Flow, Source;
    if q.enablePop {
      FrontIsNew(st.stages[s - 1].put, st.stages[s].taken, q.items);
      TakeFlows(st.stages[s], k, q.items[0]);
    } else {
      ExitFlows(st.stages[s], k, Leaving);
    }
  }

  lemma SourceKeeps<T>(c: Config<T>, st: State<T>, act: Act<T>)
    requires Shaped(st) && Source(st.stages[0]) && Can(st, act) && Clean(act)
    ensures Source(Next(c, st, act).stages[0])
    ensures st.stages[0].put <= Next(c, st, act).stages[0].put
  {
    hide Total, B.PushCore, B.PopCore, B.DelayedDisableCore, B.DisableCore, SignOff, CountDown, RunsFinals, GentleStop,
      ShutOutput, ShutInput;
  }

  lemma MadeGrows<T>(c: Config<T>, o: seq<Item<T>>, now: seq<Item<T>>, s: nat, xs: seq<Item<T>>)
    requires Made(c, o, s, xs) && o <= now
    ensures Made(c, now, s, xs)
  {
  }

  /** What a thread of step s holds has gone through the steps before s. */
  lemma HeldIsMade<T>(c: Config<T>, st: State<T>, s: nat, k: nat)
    requires Shaped(st) && CleanInv(c, st) && 0 < s && HoldsAt(st, s, k)
    ensures var x := st.stages[s].threads[k].x; var origin := st.stages[0].put;
      x.id < |origin| && x.value == Applied(c.work, s - 1, origin[x.id].value)
  {
    var x := st.stages[s].threads[k].x;
    assert Flow(st.stages[s]) && LinkAt(st, s - 1) && Made(c, st.stages[0].put, s - 1, st.stages[s - 1].put);
    assert x in st.stages[s].taken;
    var i :| 0 <= i < |st.stages[s].taken| && st.stages[s].taken[i] == x;
    assert st.stages[s - 1].put[i] == x;
  }

  lemma MadeKeeps<T>(c: Config<T>, st: State<T>, act: Act<T>, s: nat)
    requires Shaped(st) && CleanInv(c, st) && Can(st, act) && Clean(act) && s < |st.stages|
    ensures Made(c, Next(c, st, act).stages[0].put, s, Next(c, st, act).stages[s].put)
  {
    var now := Next(c, st, act);
    SourceKeeps(c, st, act);
    assert Made(c, st.stages[0].put, s, st.stages[s].put);
    MadeGrows(c, st.stages[0].put, now.stages[0].put, s, st.stages[s].put);
    if act.Put? && act.s == s {
      HeldIsMade(c, st, s, act.k);
      var x := st.stages[s].threads[act.k].x;
      PutIsMade(c, now.stages[0].put, s, st.stages[s].put, x);
    }
    hide Made, Source, Flow, Link;
    if act.Produce? && s == 0 {
      NumberedIsMade(c, now.stages[0].put);
    }
  }

  lemma PutIsMade<T>(c: Config<T>, origin: seq<Item<T>>, s: nat, xs: seq<Item<T>>, x: Item<T>)
    requires Made(c, origin, s, xs) && s > 0
    requires x.id < |origin| && x.value == Applied(c.work, s - 1, origin[x.id].value)
    ensures Made(c, origin, s, xs + [Item(x.id, c.work(s, x.value))])
  {
  }

  lemma NumberedIsMade<T>(c: Config<T>, xs: seq<Item<T>>)
    requires forall i | 0 <= i < |xs| :: xs[i].id == i
    ensures Made(c, xs, 0, xs)
  {
  }

  // ---------- every clean run ----------

  /** A thread with a result in hand finds the queue behind its step open. */
  lemma OutputOpen<T>(c: Config<T>, st: State<T>, s: nat, k: nat)
    requires CountInv(st) && CleanInv(c, st) && 0 < s < |st.shared.queues| && HoldsAt(st, s, k)
    ensures st.shared.queues[s].enablePush
  {
    StillActive(st, s, k);
    assert LinkAt(st, s);
  }

  lemma NextClean<T>(c: Config<T>, st: State<T>, act: Act<T>)
    requires CountInv(st) && CleanInv(c, st) && Clean(act)
    ensures CleanInv(c, Next(c, st, act))
  {
    if Can(st, act) {
      SourceKeeps(c, st, act);
      if act.Put? && act.s < |st.shared.queues| {
        OutputOpen(c, st, act.s, act.k);
      }
      forall s | 0 <= s < |st.stages|
        ensures s > 0 ==> Flow(Next(c, st, act).stages[s])
        ensures Made(c, Next(c, st, act).stages[0].put, s, Next(c, st, act).stages[s].put)
      {
        if s > 0 {
          FlowKeeps(c, st, act, s);
        }
        MadeKeeps(c, st, act, s);
      }
      forall q | 0 <= q < |st.shared.queues|
        ensures LinkAt(Next(c, st, act), q)
      {
        LinkKeeps(c, st, act, q);
      }
      SameShape(c, st, act);
      hide Next, CountInv, Can, LinkAt, Flow, Made, Source;
    }
  }

  lemma SameShape<T>(c: Config<T>, st: State<T>, act: Act<T>)
    requires Shaped(st)
    ensures |Next(c, st, act).stages| == |st.stages| && |Next(c, st, act).shared.queues| == |st.shared.queues|
    ensures Next(c, st, act).clean <==> st.clean && (Can(st, act) ==> Clean(act))
  {
  }

  lemma {:induction false} RunClean<T>(c: Config<T>, acts: seq<Act<T>>)
    requires Sensible(c)
    ensures Run(c, acts).clean ==> CleanInv(c, Run(c, acts))
  {
    if acts == [] {
      assert forall s | 0 <= s < |c.sizes| :: Held(Init(c).stages[s].threads) == {};
    } else {
      var st, act := Run(c, acts[..|acts| - 1]), acts[|acts| - 1];
      RunClean(c, acts[..|acts| - 1]);
      RunCounts(c, acts[..|acts| - 1]);
      SameShape(c, st, act);
      hide CountInv, CleanInv, Next;
      if st.clean && Clean(act) {
        NextClean(c, st, act);
      } else if st.clean {
        NotPossible(c, st, act);
      }
    }
  }

  lemma NotPossible<T>(c: Config<T>, st: State<T>, act: Act<T>)
    requires Shaped(st)
    ensures Can(st, act) || Next(c, st, act) == st
  {
  }

  /** In a run without blunt stop and without a step that gives up, no result is ever refused: a thread that has
      taken an element always gets rid of what it made of it. */
  lemma {:induction false} NothingRefused<T>(c: Config<T>, acts: seq<Act<T>>, s: nat, k: nat)
    requires Sensible(c) && Run(c, acts).clean
    requires 0 < s < |Run(c, acts).shared.queues| && HoldsAt(Run(c, acts), s, k)
    ensures Run(c, acts).shared.queues[s].enablePush
  {
    RunCounts(c, acts);
    RunClean(c, acts);
    hide Run;
    OutputOpen(c, Run(c, acts), s, k);
  }

  /** Once all threads are gone, every later step has put out exactly one result for each element that the first
      queue accepted, made by all the steps in their order. */
  lemma {:induction false} EveryElementOnce<T>(c: Config<T>, acts: seq<Act<T>>, s: nat)
    requires Sensible(c) && Run(c, acts).clean && AllDone(Run(c, acts)) && s < |c.sizes|
    ensures s < |Run(c, acts).stages|
    ensures var origin, out := Run(c, acts).stages[0].put, Run(c, acts).stages[s].put;
      && (forall i | 0 <= i < |origin| :: i in Ids(out))
      && Distinct(out)
      && (forall j | 0 <= j < |out| ::
            out[j].id < |origin| && out[j].value == Applied(c.work, s, origin[out[j].id].value))
  {
    RunClean(c, acts);
    RunShape(c, acts);
    hide Run;
    var st := Run(c, acts);
    assert Made(c, st.stages[0].put, s, st.stages[s].put);
    PutDistinct(c, st, s);
    AllCome(c, st, s);
    hide CleanInv;
    forall i | 0 <= i < |st.stages[0].put|
      ensures i in Ids(st.stages[s].put)
    {
      assert st.stages[0].put[i] in st.stages[0].put && st.stages[0].put[i].id == i;
    }
  }

  lemma NextSizes<T>(c: Config<T>, st: State<T>, act: Act<T>, s: nat)
    requires Shaped(st) && s < |st.stages|
    ensures s < |Next(c, st, act).stages| && |Next(c, st, act).stages[s].threads| == |st.stages[s].threads|
  {
  }

  lemma NextCaps<T>(c: Config<T>, st: State<T>, act: Act<T>, q: nat)
    requires Shaped(st) && q < |st.shared.queues|
    ensures q < |Next(c, st, act).shared.queues|
    ensures Next(c, st, act).shared.queues[q].capacity == st.shared.queues[q].capacity
  {
  }

  lemma {:induction false} RunShape<T>(c: Config<T>, acts: seq<Act<T>>)
    requires Sensible(c)
    ensures |Run(c, acts).stages| == |c.sizes|
    ensures forall s | 0 <= s < |c.sizes| :: |Run(c, acts).stages[s].threads| == c.sizes[s]
    ensures forall q | 0 <= q < |c.caps| :: Run(c, acts).shared.queues[q].capacity == c.caps[q]
  {
    if acts != [] {
      var st, act := Run(c, acts[..|acts| - 1]), acts[|acts| - 1];
      RunShape(c, acts[..|acts| - 1]);
      SameShape(c, st, act);
      forall s | 0 <= s < |c.sizes|
        ensures |Next(c, st, act).stages[s].threads| == c.sizes[s]
      {
        NextSizes(c, st, act, s);
      }
      forall q | 0 <= q < |c.caps|
        ensures Next(c, st, act).shared.queues[q].capacity == c.caps[q]
      {
        NextCaps(c, st, act, q);
      }
      hide Next;
    }
  }

  /** Nothing stays behind between two steps whose threads are gone. */
  lemma {:induction false} AllCome<T>(c: Config<T>, st: State<T>, s: nat)
    requires Shaped(st) && CleanInv(c, st) && AllDone(st) && s < |st.stages|
    requires forall s | 0 <= s < |st.stages| :: |st.stages[s].threads| > 0
    ensures Ids(st.stages[s].put) == Ids(st.stages[0].put)
    ensures forall i | 0 <= i < |st.stages[0].put| :: st.stages[0].put[i].id == i
  {
    if s > 0 {
      AllCome(c, st, s - 1);
      assert LinkAt(st, s - 1) && Flow(st.stages[s]);
      assert Gone(st.stages[s].threads[0]);
      assert Held(st.stages[s].threads) == {};
      assert st.stages[s - 1].put == st.stages[s].taken;
    }
  }
}
