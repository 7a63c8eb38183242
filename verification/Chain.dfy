/** The processing chain: steps joined by queues, each step run by a number of threads. A thread pops from the queue
    before its step, works, and pushes onto the queue behind it; the shutdown of a step spreads both ways. */
module Chains {
  import B = BQueues

  /** An element with the number under which the first queue accepted what it was made from. */
  datatype Item<T> = Item(id: nat, value: T)

  /** Where a thread is: in the step's function, without or with an element in hand, or on its way out. */
  datatype Phase<T> =
    | Working
    | Holding(x: Item<T>)
    | Leaving
    | Last
    | LastIn
    | Counting
    | Finishing
    | Done

  /** The memory that the threads share. */
  datatype Shared<T> = Shared(queues: seq<B.Core<Item<T>>>, nthread: seq<nat>, nthreads: nat,
                              running: bool, cancelled: bool, finalized: bool)

  /** A step: its threads, what they have taken from the queue before it, and what they have put out. */
  datatype Stage<T> = Stage(threads: seq<Phase<T>>, taken: seq<Item<T>>, put: seq<Item<T>>)

  /** clean: nobody stopped the chain bluntly and no step gave up by itself. */
  datatype State<T> = State(shared: Shared<T>, stages: seq<Stage<T>>, finals: nat, clean: bool)

  /** What step s makes of an element, the number of threads of each step and the capacity of each queue. */
  datatype Config<!T> = Config(work: (nat, T) -> T, sizes: seq<nat>, caps: seq<nat>)

  ghost predicate Sensible<T>(c: Config<T>) {
    |c.sizes| >= 2 && |c.caps| == |c.sizes| - 1 && forall s | 0 <= s < |c.sizes| :: c.sizes[s] > 0
  }

  // ---------- the critical sections ----------

  /** A thread signs off from its step and learns whether it was the last one. */
  function SignOff<T>(sh: Shared<T>, s: nat): (Shared<T>, bool)
    requires s < |sh.nthread|
  {
    var n := if sh.nthread[s] != 0 then sh.nthread[s] - 1 else 0;
    (sh.(nthread := sh.nthread[s := n]), n == 0)
  }

  function SetQueue<T>(sh: Shared<T>, q: nat, core: B.Core<Item<T>>): Shared<T>
    requires q < |sh.queues|
  {
    sh.(queues := sh.queues[q := core])
  }

  /** The last thread of a step lets the queue behind it run dry; the last step has none. */
  function ShutOutput<T>(sh: Shared<T>, s: nat): Shared<T> {
    if s < |sh.queues| then SetQueue(sh, s, B.DelayedDisableCore(sh.queues[s])) else sh
  }

  /** It disables the queue before it; the first step has none. */
  function ShutInput<T>(sh: Shared<T>, s: nat): Shared<T> {
    if 0 < s <= |sh.queues| then SetQueue(sh, s - 1, B.DisableCore(sh.queues[s - 1])) else sh
  }

  /** A thread signs off from the chain. */
  function CountDown<T>(sh: Shared<T>): (Shared<T>, bool) {
    var n := if sh.nthreads != 0 then sh.nthreads - 1 else 0;
    (sh.(nthreads := n), n == 0)
  }

  predicate RunsFinals<T>(sh: Shared<T>) {
    sh.running && !sh.finalized
  }

  /** The stop signal from outside that lets everything under way be processed. */
  function GentleStop<T>(sh: Shared<T>, cancel: bool): Shared<T> {
    if sh.running && !sh.cancelled then ShutOutput(sh, 0).(cancelled := cancel) else sh
  }

  // ---------- runs ----------

  /** What threads do, each at its own step s with its own number k, and what happens from outside. */
  datatype Act<T> =
    | Produce(k: nat, value: T)
    | Quit(k: nat)
    | Take(s: nat, k: nat)
    | Put(s: nat, k: nat)
    | Abandon(s: nat, k: nat)
    | Leave(s: nat, k: nat)
    | CloseOutput(s: nat, k: nat)
    | CloseInput(s: nat, k: nat)
    | Count(s: nat, k: nat)
    | Finals(s: nat, k: nat)
    | StopGently(cancel: bool)
    | DisableBluntly(q: nat)
    | Join

  ghost predicate At<T>(st: State<T>, s: nat, k: nat, p: Phase<T>) {
    s < |st.stages| && k < |st.stages[s].threads| && st.stages[s].threads[k] == p
  }

  ghost predicate HoldsAt<T>(st: State<T>, s: nat, k: nat) {
    s < |st.stages| && k < |st.stages[s].threads| && st.stages[s].threads[k].Holding?
  }

  ghost predicate AllDone<T>(st: State<T>) {
    forall s, k | 0 <= s < |st.stages| && 0 <= k < |st.stages[s].threads| :: st.stages[s].threads[k] == Done
  }

  ghost predicate Shaped<T>(st: State<T>) {
    |st.stages| == |st.shared.nthread| == |st.shared.queues| + 1 >= 2
  }

  /** An act can happen when its thread is at the right place and not blocked on a queue. */
  ghost predicate Can<T>(st: State<T>, act: Act<T>)
    requires Shaped(st)
  {
    match act
    case Produce(k, v) => At(st, 0, k, Working) && !B.PushBlocked(st.shared.queues[0])
    case Quit(k) => At(st, 0, k, Working)
    case Take(s, k) => s > 0 && At(st, s, k, Working) && !B.PopBlocked(st.shared.queues[s - 1])
    case Put(s, k) => s > 0 && HoldsAt(st, s, k) && (s < |st.shared.queues| ==> !B.PushBlocked(st.shared.queues[s]))
    case Abandon(s, k) => At(st, s, k, Working) || HoldsAt(st, s, k)
    case Leave(s, k) => At(st, s, k, Leaving)
    case CloseOutput(s, k) => At(st, s, k, Last)
    case CloseInput(s, k) => At(st, s, k, LastIn)
    case Count(s, k) => At(st, s, k, Counting)
    case Finals(s, k) => At(st, s, k, Finishing)
    case StopGently(cancel) => true
    case DisableBluntly(q) => q < |st.shared.queues| && st.shared.running
    case Join => AllDone(st)
  }

  /** Thread (s, k) moves to p, with its step's records becoming taken and put and the shared memory sh. */
  ghost function Move<T>(st: State<T>, sh: Shared<T>, s: nat, k: nat, p: Phase<T>,
                         taken: seq<Item<T>>, put: seq<Item<T>>): (next: State<T>)
    requires s < |st.stages| && k < |st.stages[s].threads|
    ensures |next.stages| == |st.stages| && next.shared == sh
  {
    st.(shared := sh, stages := st.stages[s := Stage(st.stages[s].threads[k := p], taken, put)])
  }

  ghost function Go<T>(st: State<T>, sh: Shared<T>, s: nat, k: nat, p: Phase<T>): (next: State<T>)
    requires s < |st.stages| && k < |st.stages[s].threads|
    ensures |next.stages| == |st.stages| && next.shared == sh
  {
    Move(st, sh, s, k, p, st.stages[s].taken, st.stages[s].put)
  }

  /** Step s pushes x onto the queue behind it, or finishes with it if it is the last step. */
  ghost function Output<T>(st: State<T>, s: nat, k: nat, x: Item<T>): (next: State<T>)
    requires Shaped(st) && s < |st.stages| && k < |st.stages[s].threads|
    ensures Shaped(next)
  {
    var put := st.stages[s].put + [x];
    if s == |st.shared.queues| then
      Move(st, st.shared, s, k, Working, st.stages[s].taken, put)
    else if st.shared.queues[s].enablePush then
      Move(st, SetQueue(st.shared, s, B.PushCore(st.shared.queues[s], x)), s, k, Working, st.stages[s].taken, put)
    else
      Go(st, st.shared, s, k, Leaving)
  }

  ghost function Input<T>(st: State<T>, s: nat, k: nat): (next: State<T>)
    requires Shaped(st) && 0 < s < |st.stages| && k < |st.stages[s].threads|
    requires !B.PopBlocked(st.shared.queues[s - 1])
    ensures Shaped(next)
  {
    var q := st.shared.queues[s - 1];
    var sh := SetQueue(st.shared, s - 1, B.PopCore(q));
    if q.enablePop then
      Move(st, sh, s, k, Holding(q.items[0]), st.stages[s].taken + [q.items[0]], st.stages[s].put)
    else
      Go(st, sh, s, k, Leaving)
  }

  ghost function Next<T>(c: Config<T>, st: State<T>, act: Act<T>): (next: State<T>)
    requires Shaped(st)
    ensures Shaped(next)
  {
    hide Move, Output, Input, Go;
    if !Can(st, act) then st
    else
      match act
      case Produce(k, v) => Output(st, 0, k, Item(|st.stages[0].put|, v))
      case Quit(k) => Go(st, st.shared, 0, k, Leaving)
      case Take(s, k) => Input(st, s, k)
      case Put(s, k) =>
        var x := st.stages[s].threads[k].x;
        Output(st, s, k, Item(x.id, c.work(s, x.value)))
      case Abandon(s, k) => Go(st, st.shared, s, k, Leaving).(clean := false)
      case Leave(s, k) =>
        var (sh, last) := SignOff(st.shared, s);
        Go(st, sh, s, k, if last then Last else Counting)
      case CloseOutput(s, k) => Go(st, ShutOutput(st.shared, s), s, k, LastIn)
      case CloseInput(s, k) => Go(st, ShutInput(st.shared, s), s, k, Counting)
      case Count(s, k) =>
        var (sh, last) := CountDown(st.shared);
        Go(st, sh, s, k, if last then Finishing else Done)
      case Finals(s, k) =>
        if RunsFinals(st.shared)
        then Go(st, st.shared.(finalized := true), s, k, Done).(finals := st.finals + 1)
        else Go(st, st.shared, s, k, Done)
      case StopGently(cancel) => st.(shared := GentleStop(st.shared, cancel))
      case DisableBluntly(q) =>
        st.(shared := SetQueue(st.shared, q, B.DisableCore(st.shared.queues[q])), clean := false)
      case Join => st.(shared := st.shared.(running := false))
  }

  ghost function Init<T>(c: Config<T>): (st: State<T>)
    requires Sensible(c)
    ensures Shaped(st)
  {
    State(Shared(seq(|c.caps|, q requires 0 <= q < |c.caps| => B.Core([], true, true, c.caps[q])),
                 c.sizes, Total(c.sizes, Itself), true, false, false),
          seq(|c.sizes|, s requires 0 <= s < |c.sizes| => Stage(seq(c.sizes[s], k => Working), [], [])), 0, true)
  }

  function Total<A>(xs: seq<A>, f: A -> nat): nat {
    if xs == [] then 0 else Total(xs[..|xs| - 1], f) + f(xs[|xs| - 1])
  }

  function Itself(n: nat): nat {
    n
  }

  ghost function Run<T>(c: Config<T>, acts: seq<Act<T>>): (st: State<T>)
    requires Sensible(c)
    ensures Shaped(st)
  {
    hide Next;
    if acts == [] then Init(c) else Next(c, Run(c, acts[..|acts| - 1]), acts[|acts| - 1])
  }
}
