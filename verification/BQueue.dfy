/** The interthread queue: a monitor with one mutex and two condition variables. Every stretch of code between
    taking the mutex and giving it up (by unlocking or by waiting) is one atomic section. */
module BQueues {

  /** What the mutex protects, waiting threads aside. */
  datatype Core<T> = Core(items: seq<T>, enablePush: bool, enablePop: bool, capacity: nat)

  /** A condition variable: the threads blocked on it, and those woken that do not hold the mutex again yet. */
  datatype Cond = Cond(asleep: set<nat>, awake: set<nat>)

  datatype Queue<T> = Queue(core: Core<T>, nPush: nat, nPop: nat, pushers: Cond, poppers: Cond)

  /** The capacity of a queue made disabled. */
  const INVALID_SIZE := 0xFFFF_FFFF_FFFF_FFFF

  /** How a section of push or pop ends; only timed pops and attempts expire. */
  datatype Outcome<T> = Waiting | Refused | Pushed | Popped(value: T) | Expired

  // ---------- the condition variables ----------

  function Sleep(c: Cond, t: nat): Cond {
    Cond(c.asleep + {t}, c.awake)
  }

  /** Signalling wakes one sleeper, if there is any; w is the one picked. */
  function Signal(c: Cond, w: nat): Cond {
    if w in c.asleep then Cond(c.asleep - {w}, c.awake + {w}) else c
  }

  function Broadcast(c: Cond): Cond {
    Cond({}, c.awake + c.asleep)
  }

  function Resume(c: Cond, t: nat): Cond {
    Cond(c.asleep, c.awake - {t})
  }

  // ---------- the queue alone ----------

  predicate PushBlocked<T>(c: Core<T>) {
    c.enablePush && |c.items| >= c.capacity
  }

  predicate PopBlocked<T>(c: Core<T>) {
    c.enablePop && c.items == []
  }

  function PushCore<T>(c: Core<T>, x: T): Core<T> {
    if c.enablePush then c.(items := c.items + [x]) else c
  }

  /** Taking the last element of a queue nobody may push to disables it completely. */
  function PopCore<T>(c: Core<T>): Core<T>
    requires !PopBlocked(c)
    requires c.enablePop ==> c.items != []
  {
    var rest := if c.enablePop then c.items[1..] else c.items;
    c.(items := rest, enablePop := c.enablePop && (c.enablePush || rest != []))
  }

  function DisableCore<T>(c: Core<T>): Core<T> {
    c.(items := [], enablePush := false, enablePop := false)
  }

  function DelayedDisableCore<T>(c: Core<T>): Core<T> {
    c.(enablePush := false, enablePop := c.enablePop && c.items != [])
  }

  function ResizeEnableCore<T>(c: Core<T>, newcap: nat): Core<T> {
    Core([], true, true, if newcap != 0 then newcap else c.capacity)
  }

  // ---------- the sections ----------

  /** push from the test of its wait loop on, with the caller counted in nPush; w is the popper signalled. */
  function PushBody<T>(q: Queue<T>, t: nat, x: T, w: nat): (r: (Queue<T>, Outcome<T>))
    requires q.nPush > 0
  {
    if PushBlocked(q.core) then
      (q.(pushers := Sleep(q.pushers, t)), Waiting)
    else
      var did := q.core.enablePush;
      (q.(core := PushCore(q.core, x), nPush := q.nPush - 1,
          poppers := if q.nPop != 0 && did then Signal(q.poppers, w) else q.poppers),
       if did then Pushed else Refused)
  }

  /** pop from the test of its wait loop on; w is the pusher signalled. */
  function PopBody<T>(q: Queue<T>, t: nat, w: nat): (r: (Queue<T>, Outcome<T>))
    requires q.nPop > 0
  {
    if PopBlocked(q.core) then
      (q.(poppers := Sleep(q.poppers, t)), Waiting)
    else
      var did := q.core.enablePop;
      var core := PopCore(q.core);
      (q.(core := core, nPop := q.nPop - 1,
          pushers := if q.nPush != 0 && did then Signal(q.pushers, w) else q.pushers,
          poppers := if q.nPop - 1 != 0 && !core.enablePop then Broadcast(q.poppers) else q.poppers),
       if did then Popped(q.core.items[0]) else Refused)
  }

  function PushEnter<T>(q: Queue<T>, t: nat, x: T, w: nat): (Queue<T>, Outcome<T>) {
    PushBody(q.(nPush := q.nPush + 1), t, x, w)
  }

  function PushWake<T>(q: Queue<T>, t: nat, x: T, w: nat): (Queue<T>, Outcome<T>)
    requires q.nPush > 0
  {
    PushBody(q.(pushers := Resume(q.pushers, t)), t, x, w)
  }

  function PopEnter<T>(q: Queue<T>, t: nat, w: nat): (Queue<T>, Outcome<T>) {
    PopBody(q.(nPop := q.nPop + 1), t, w)
  }

  function PopWake<T>(q: Queue<T>, t: nat, w: nat): (Queue<T>, Outcome<T>)
    requires q.nPop > 0
  {
    PopBody(q.(poppers := Resume(q.poppers, t)), t, w)
  }

  function Disable<T>(q: Queue<T>): Queue<T> {
    q.(core := DisableCore(q.core), pushers := Broadcast(q.pushers), poppers := Broadcast(q.poppers))
  }

  function DelayedDisable<T>(q: Queue<T>): Queue<T> {
    var core := DelayedDisableCore(q.core);
    q.(core := core, pushers := Broadcast(q.pushers),
       poppers := if core.enablePop then q.poppers else Broadcast(q.poppers))
  }

  function ResizeEnable<T>(q: Queue<T>, newcap: nat): Queue<T> {
    q.(core := ResizeEnableCore(q.core, newcap), pushers := Broadcast(q.pushers), poppers := Broadcast(q.poppers))
  }

  /** clear wakes pushers only. */
  function Clear<T>(q: Queue<T>): Queue<T> {
    q.(core := q.core.(items := [], enablePop := q.core.enablePop && q.core.enablePush),
       pushers := if q.nPush != 0 && q.core.items != [] then Broadcast(q.pushers) else q.pushers)
  }

  /** A timed pop from the test of its wait loop on, late when the time is over: unlike pop it gives up when late, and
      it does not wake the other poppers when it disables the queue. An attempt to pop is one that is late at once. */
  function TimedBody<T>(q: Queue<T>, t: nat, w: nat, late: bool): (r: (Queue<T>, Outcome<T>))
    requires q.nPop > 0
  {
    var c := q.core;
    if PopBlocked(c) && !late then
      (q.(poppers := Sleep(q.poppers, t)), Waiting)
    else
      var did := c.enablePop && c.items != [];
      var rest := if did then c.items[1..] else c.items;
      (q.(core := c.(items := rest, enablePop := c.enablePop && (c.enablePush || rest != [])), nPop := q.nPop - 1,
          pushers := if q.nPush != 0 && did then Signal(q.pushers, w) else q.pushers),
       if did then Popped(c.items[0]) else if c.enablePop then Expired else Refused)
  }

  /** A thread enters a timed pop, goes on with it after a signal or because the time is over, or attempts a pop. */
  datatype TimedCall =
    | TimedEnter(t: nat, w: nat)
    | TimedWoken(t: nat, w: nat, late: bool)
    | TimedOut(t: nat, w: nat)
    | TryPop(t: nat, w: nat)

  ghost predicate CanTimed<T>(q: Queue<T>, c: TimedCall) {
    Target(q.pushers, c.w) &&
    match c
    case TimedEnter(t, w) => !Waits(q.pushers, t) && !Waits(q.poppers, t)
    case TimedWoken(t, w, late) => t in q.poppers.awake && q.nPop > 0
    case TimedOut(t, w) => t in q.poppers.asleep && q.nPop > 0
    case TryPop(t, w) => !Waits(q.pushers, t) && !Waits(q.poppers, t)
  }

  /** The queue with the caller counted as popping and not waiting. */
  ghost function Ready<T>(q: Queue<T>, c: TimedCall): Queue<T> {
    match c
    case TimedWoken(t, w, late) => q.(poppers := Resume(q.poppers, t))
    case TimedOut(t, w) => q.(poppers := Cond(q.poppers.asleep - {t}, q.poppers.awake))
    case _ => q.(nPop := q.nPop + 1)
  }

  ghost function TimedDo<T>(q: Queue<T>, c: TimedCall): (Queue<T>, Outcome<T>)
    requires CanTimed(q, c)
  {
    TimedBody(Ready(q, c), c.t, c.w, c.TimedOut? || c.TryPop? || (c.TimedWoken? && c.late))
  }

  // ---------- runs ----------

  datatype Step<T> =
    | DoPushEnter(t: nat, x: T, w: nat)
    | DoPushWake(t: nat, x: T, w: nat)
    | DoPopEnter(t: nat, w: nat)
    | DoPopWake(t: nat, w: nat)
    | DoDisable
    | DoDelayedDisable
    | DoResizeEnable(newcap: nat)
    | SpuriousPusher(t: nat)
    | SpuriousPopper(t: nat)

  ghost predicate Waits(c: Cond, t: nat) {
    t in c.asleep || t in c.awake
  }

  /** A signal goes to a sleeper if there is one. */
  ghost predicate Target(c: Cond, w: nat) {
    c.asleep != {} ==> w in c.asleep
  }

  /** Which steps can happen: a thread is in at most one of the two operations, and only a woken one goes on. */
  ghost predicate Enabled<T>(q: Queue<T>, step: Step<T>) {
    match step
    case DoPushEnter(t, x, w) => !Waits(q.pushers, t) && !Waits(q.poppers, t) && Target(q.poppers, w)
    case DoPushWake(t, x, w) => t in q.pushers.awake && q.nPush > 0 && Target(q.poppers, w)
    case DoPopEnter(t, w) => !Waits(q.pushers, t) && !Waits(q.poppers, t) && Target(q.pushers, w)
    case DoPopWake(t, w) => t in q.poppers.awake && q.nPop > 0 && Target(q.pushers, w)
    case SpuriousPusher(t) => t in q.pushers.asleep
    case SpuriousPopper(t) => t in q.poppers.asleep
    case _ => true
  }

  ghost function Do<T>(q: Queue<T>, step: Step<T>): (Queue<T>, Outcome<T>)
    requires Enabled(q, step)
  {
    match step
    case DoPushEnter(t, x, w) => PushEnter(q, t, x, w)
    case DoPushWake(t, x, w) => PushWake(q, t, x, w)
    case DoPopEnter(t, w) => PopEnter(q, t, w)
    case DoPopWake(t, w) => PopWake(q, t, w)
    case DoDisable => (Disable(q), Waiting)
    case DoDelayedDisable => (DelayedDisable(q), Waiting)
    case DoResizeEnable(newcap) => (ResizeEnable(q, newcap), Waiting)
    case SpuriousPusher(t) => (q.(pushers := Signal(q.pushers, t)), Waiting)
    case SpuriousPopper(t) => (q.(poppers := Signal(q.poppers, t)), Waiting)
  }

  /** A queue with what it has taken in and given out since it was last cleared. */
  datatype Trace<T> = Trace(q: Queue<T>, accepted: seq<T>, delivered: seq<T>)

  ghost function Next<T>(s: Trace<T>, step: Step<T>): Trace<T> {
    if !Enabled(s.q, step) then s
    else
      var (q, outcome) := Do(s.q, step);
      if step.DoDisable? || step.DoResizeEnable? then
        Trace(q, [], [])
      else
        Trace(q, if outcome.Pushed? then s.accepted + [step.x] else s.accepted,
              if outcome.Popped? then s.delivered + [outcome.value] else s.delivered)
  }

  ghost function Init<T>(capacity: nat): Trace<T> {
    var nobody := Cond({}, {});
    var enabled := capacity != INVALID_SIZE;
    Trace(Queue(Core([], enabled, enabled, capacity), 0, 0, nobody, nobody), [], [])
  }

  ghost function Run<T>(capacity: nat, steps: seq<Step<T>>): Trace<T> {
    if steps == [] then Init(capacity) else Next(Run(capacity, steps[..|steps| - 1]), steps[|steps| - 1])
  }

  // ---------- no wake-up is lost ----------

  /** Threads counted as pushing or popping are the waiting ones. */
  ghost predicate Tallied(n: nat, c: Cond) {
    c.asleep !! c.awake && n == |c.asleep| + |c.awake|
  }

  /** Popping ends when pushing has ended and the queue is empty, and not before. */
  ghost predicate CoreInv<T>(c: Core<T>) {
    !c.enablePop <==> c.items == [] && !c.enablePush
  }

  ghost predicate Inv<T>(q: Queue<T>) {
    && Tallied(q.nPush, q.pushers)
    && Tallied(q.nPop, q.poppers)
    && CoreInv(q.core)
    && (q.poppers.asleep != {} ==> q.core.enablePop && |q.core.items| <= |q.poppers.awake|)
    && (q.pushers.asleep != {} ==> q.core.enablePush && q.core.capacity - |q.core.items| <= |q.pushers.awake|)
  }

  lemma SignalTallied(n: nat, c: Cond, w: nat)
    requires Tallied(n, c) && Target(c, w)
    ensures Tallied(n, Signal(c, w))
    ensures Signal(c, w).asleep != {} ==> |Signal(c, w).awake| == |c.awake| + 1
  {
    if c.asleep == {} {
      assert w !in c.asleep;
    }
  }

  lemma BroadcastTallied(n: nat, c: Cond)
    requires Tallied(n, c)
    ensures Tallied(n, Broadcast(c)) && Broadcast(c).asleep == {}
  {
  }

  lemma ResumeTallied(n: nat, c: Cond, t: nat)
    requires Tallied(n, c) && t in c.awake
    ensures n > 0 && Tallied(n - 1, Resume(c, t))
    ensures |Resume(c, t).awake| == |c.awake| - 1 && !Waits(Resume(c, t), t)
  {
  }

  lemma SleepTallied(n: nat, c: Cond, t: nat)
    requires Tallied(n, c) && !Waits(c, t)
    ensures Tallied(n + 1, Sleep(c, t))
  {
  }

  lemma NobodyAsleep(n: nat, c: Cond)
    requires Tallied(n, c)
    ensures n == 0 ==> c.asleep == {}
  {
  }

  /** What holds when a pusher has the mutex and is about to test its condition: it is counted but not waiting. */
  ghost predicate PusherReady<T>(q: Queue<T>, t: nat) {
    && q.nPush > 0 && Tallied(q.nPush - 1, q.pushers) && !Waits(q.pushers, t)
    && Tallied(q.nPop, q.poppers)
    && CoreInv(q.core)
    && (q.poppers.asleep != {} ==> q.core.enablePop && |q.core.items| <= |q.poppers.awake|)
    && (q.pushers.asleep != {} ==> q.core.enablePush && q.core.capacity - |q.core.items| <= |q.pushers.awake| + 1)
  }

  ghost predicate PopperReady<T>(q: Queue<T>, t: nat) {
    && q.nPop > 0 && Tallied(q.nPop - 1, q.poppers) && !Waits(q.poppers, t)
    && Tallied(q.nPush, q.pushers)
    && CoreInv(q.core)
    && (q.poppers.asleep != {} ==> q.core.enablePop && |q.core.items| <= |q.poppers.awake| + 1)
    && (q.pushers.asleep != {} ==> q.core.enablePush && q.core.capacity - |q.core.items| <= |q.pushers.awake|)
  }

  lemma PushBodyKeeps<T>(q: Queue<T>, t: nat, x: T, w: nat)
    requires PusherReady(q, t) && Target(q.poppers, w)
    ensures Inv(PushBody(q, t, x, w).0)
  {
    SleepTallied(q.nPush - 1, q.pushers, t);
    SignalTallied(q.nPop, q.poppers, w);
    if q.nPop == 0 {
      NobodyAsleep(q.nPop, q.poppers);
    }
  }

  lemma PopBodyKeeps<T>(q: Queue<T>, t: nat, w: nat)
    requires PopperReady(q, t) && Target(q.pushers, w)
    ensures Inv(PopBody(q, t, w).0)
  {
    SleepTallied(q.nPop - 1, q.poppers, t);
    SignalTallied(q.nPush, q.pushers, w);
    BroadcastTallied(q.nPop - 1, q.poppers);
    if q.nPush == 0 {
      NobodyAsleep(q.nPush, q.pushers);
    }
    if q.nPop == 1 {
      NobodyAsleep(q.nPop - 1, q.poppers);
    }
  }

  lemma PushKeeps<T>(q: Queue<T>, t: nat, x: T, w: nat)
    requires Inv(q) && Target(q.poppers, w)
    ensures !Waits(q.pushers, t) ==> Inv(PushEnter(q, t, x, w).0)
    ensures t in q.pushers.awake && q.nPush > 0 ==> Inv(PushWake(q, t, x, w).0)
  {
    hide PushBody;
    if t in q.pushers.awake {
      ResumeTallied(q.nPush, q.pushers, t);
      PushBodyKeeps(q.(pushers := Resume(q.pushers, t)), t, x, w);
    } else if !Waits(q.pushers, t) {
      PushBodyKeeps(q.(nPush := q.nPush + 1), t, x, w);
    }
  }

  lemma PopKeeps<T>(q: Queue<T>, t: nat, w: nat)
    requires Inv(q) && Target(q.pushers, w)
    ensures !Waits(q.poppers, t) ==> Inv(PopEnter(q, t, w).0)
    ensures t in q.poppers.awake && q.nPop > 0 ==> Inv(PopWake(q, t, w).0)
  {
    hide PopBody;
    if t in q.poppers.awake {
      ResumeTallied(q.nPop, q.poppers, t);
      PopBodyKeeps(q.(poppers := Resume(q.poppers, t)), t, w);
    } else if !Waits(q.poppers, t) {
      PopBodyKeeps(q.(nPop := q.nPop + 1), t, w);
    }
  }

  lemma ControlKeeps<T>(q: Queue<T>, newcap: nat)
    requires Inv(q)
    ensures Inv(Disable(q)) && Inv(DelayedDisable(q)) && Inv(ResizeEnable(q, newcap))
  {
    BroadcastTallied(q.nPush, q.pushers);
    BroadcastTallied(q.nPop, q.poppers);
  }

  lemma SpuriousKeeps<T>(q: Queue<T>, t: nat)
    requires Inv(q)
    ensures t in q.pushers.asleep ==> Inv(q.(pushers := Signal(q.pushers, t)))
    ensures t in q.poppers.asleep ==> Inv(q.(poppers := Signal(q.poppers, t)))
  {
    if t in q.pushers.asleep {
      SignalTallied(q.nPush, q.pushers, t);
    }
    if t in q.poppers.asleep {
      SignalTallied(q.nPop, q.poppers, t);
    }
  }

  lemma DoKeeps<T>(q: Queue<T>, step: Step<T>)
    requires Inv(q) && Enabled(q, step)
    ensures Inv(Do(q, step).0)
  {
    hide Inv, PushEnter, PushWake, PopEnter, PopWake, Disable, DelayedDisable, ResizeEnable, Signal;
    match step
    case DoPushEnter(t, x, w) => PushKeeps(q, t, x, w);
    case DoPushWake(t, x, w) => PushKeeps(q, t, x, w);
    case DoPopEnter(t, w) => PopKeeps(q, t, w);
    case DoPopWake(t, w) => PopKeeps(q, t, w);
    case SpuriousPusher(t) => SpuriousKeeps(q, t);
    case SpuriousPopper(t) => SpuriousKeeps(q, t);
    case DoResizeEnable(newcap) => ControlKeeps(q, newcap);
    case _ => ControlKeeps(q, 0);
  }

  ghost predicate TraceInv<T>(s: Trace<T>) {
    Inv(s.q) && s.accepted == s.delivered + s.q.core.items
  }

  lemma DoItems<T>(q: Queue<T>, step: Step<T>)
    requires Enabled(q, step) && CoreInv(q.core)
    ensures var (next, outcome) := Do(q, step);
      if step.DoDisable? || step.DoResizeEnable? then next.core.items == []
      else if outcome.Pushed? then next.core.items == q.core.items + [step.x]
      else if outcome.Popped? then q.core.items == [outcome.value] + next.core.items
      else next.core.items == q.core.items
  {
    hide Signal, Broadcast, Resume, Sleep, Target, Waits;
  }

  lemma NextKeeps<T>(s: Trace<T>, step: Step<T>)
    requires TraceInv(s)
    ensures TraceInv(Next(s, step))
  {
    if Enabled(s.q, step) {
      DoKeeps(s.q, step);
      NextItems(s, step);
      hide Do, Enabled, Inv;
    }
  }

  lemma NextItems<T>(s: Trace<T>, step: Step<T>)
    requires Enabled(s.q, step) && CoreInv(s.q.core) && s.accepted == s.delivered + s.q.core.items
    ensures Next(s, step).accepted == Next(s, step).delivered + Next(s, step).q.core.items
  {
    DoItems(s.q, step);
    var (next, outcome) := Do(s.q, step);
    hide Do, Enabled;
    if outcome.Pushed? && (step.DoPushEnter? || step.DoPushWake?) {
      assert s.accepted + [step.x] == s.delivered + (s.q.core.items + [step.x]);
    } else if outcome.Popped? {
      assert s.delivered + ([outcome.value] + next.core.items) == s.delivered + [outcome.value] + next.core.items;
    }
  }

  lemma {:induction false} RunInv<T>(capacity: nat, steps: seq<Step<T>>)
    ensures TraceInv(Run(capacity, steps))
  {
    if steps != [] {
      RunInv(capacity, steps[..|steps| - 1]);
      NextKeeps(Run(capacity, steps[..|steps| - 1]), steps[|steps| - 1]);
    }
  }

  /** Whenever a popper sleeps the queued elements do not outnumber the poppers already woken, dually for pushers
      and free places, and nobody sleeps at a disabled end. */
  lemma {:induction false} NoLostWakeup<T>(capacity: nat, steps: seq<Step<T>>)
    ensures var q := Run(capacity, steps).q;
      && (q.poppers.asleep != {} ==> q.core.enablePop && |q.core.items| <= |q.poppers.awake|)
      && (q.pushers.asleep != {} ==> q.core.enablePush && q.core.capacity - |q.core.items| <= |q.pushers.awake|)
  {
    RunInv(capacity, steps);
  }

  /** Pushers and poppers never all sleep together, unless the capacity is zero. */
  lemma {:induction false} NeverAllAsleep<T>(capacity: nat, steps: seq<Step<T>>)
    ensures var q := Run(capacity, steps).q;
      && q.pushers.asleep != {} && q.poppers.asleep != {} && q.pushers.awake == {} && q.poppers.awake == {}
      ==> q.core.capacity == 0
  {
    RunInv(capacity, steps);
  }

  /** Elements come out in the order they were accepted in, and none is given out twice. */
  lemma {:induction false} FirstInFirstOut<T>(capacity: nat, steps: seq<Step<T>>)
    ensures var s := Run(capacity, steps);
      s.delivered <= s.accepted && s.accepted[|s.delivered|..] == s.q.core.items
  {
    RunInv(capacity, steps);
  }

  /** A pop is refused only once every element accepted has been delivered. */
  lemma {:induction false} RefusedMeansDrained<T>(capacity: nat, steps: seq<Step<T>>, step: Step<T>)
    requires step.DoPopEnter? || step.DoPopWake?
    ensures var s := Run(capacity, steps);
      Enabled(s.q, step) && Do(s.q, step).1.Refused? ==> s.delivered == s.accepted
  {
    RunInv(capacity, steps);
  }

  // ---------- the operations that can strand a popper ----------

  lemma ReadyHolds<T>(q: Queue<T>, c: TimedCall)
    requires Inv(q) && CanTimed(q, c)
    ensures PopperReady(Ready(q, c), c.t) && Ready(q, c).poppers.asleep == q.poppers.asleep - {c.t}
  {
    if c.TimedWoken? {
      ResumeTallied(q.nPop, q.poppers, c.t);
    }
  }

  lemma TimedBodyStrands<T>(r: Queue<T>, t: nat, w: nat, late: bool)
    requires PopperReady(r, t) && Target(r.pushers, w)
    ensures Inv(TimedBody(r, t, w, late).0) <==> !(r.poppers.asleep != {} && !r.core.enablePush && |r.core.items| == 1)
  {
    if PopBlocked(r.core) && !late {
      SleepTallied(r.nPop - 1, r.poppers, t);
    } else if r.core.enablePop && r.core.items != [] {
      assert r.core.items[1..] == [] <==> |r.core.items| == 1;
      SignalTallied(r.nPush, r.pushers, w);
      NobodyAsleep(r.nPush, r.pushers);
    }
  }

  /** A timed pop, at its entry, after a signal or when its time is over, and equally an attempt to pop, strands the
      other sleeping poppers exactly when it takes the last element of a queue that nobody may push to any more. In all
      other cases it keeps the wake-up invariant. */
  lemma TimedPopStrands<T>(q: Queue<T>, c: TimedCall)
    requires Inv(q) && CanTimed(q, c)
    ensures Inv(TimedDo(q, c).0)
      <==> !(q.poppers.asleep - {c.t} != {} && !q.core.enablePush && |q.core.items| == 1)
  {
    ReadyHolds(q, c);
    assert Ready(q, c).core == q.core && Ready(q, c).pushers == q.pushers;
    hide Inv, PopperReady, TimedBody, Ready;
    TimedBodyStrands(Ready(q, c), c.t, c.w, c.TimedOut? || c.TryPop? || (c.TimedWoken? && c.late));
  }

  /** Popper t sleeps on a queue that is disabled at both ends. */
  ghost predicate Stranded<T>(q: Queue<T>, t: nat) {
    t in q.poppers.asleep && !q.core.enablePop && !q.core.enablePush && q.core.items == [] && Tallied(q.nPop, q.poppers)
  }

  /** A stranded popper stays so through every push, and is freed by every pop without a time limit, which is refused
      and wakes all, by every call that disables or enables the queue, and by a spurious wake-up of its own. */
  lemma StrandedUntil<T>(q: Queue<T>, t: nat, step: Step<T>)
    requires Stranded(q, t) && Enabled(q, step)
    ensures Stranded(Do(q, step).0, t) <==>
      step.DoPushEnter? || step.DoPushWake? || step.SpuriousPusher? || (step.SpuriousPopper? && step.t != t)
    ensures !Stranded(Do(q, step).0, t) ==> t in Do(q, step).0.poppers.awake
  {
    match step
    case DoPopEnter(k, w) => assert |q.poppers.asleep| > 0;
    case DoPopWake(k, w) =>
      ResumeTallied(q.nPop, q.poppers, k);
      assert |q.poppers.asleep| > 0;
    case SpuriousPopper(k) => SignalTallied(q.nPop, q.poppers, k);
    case _ =>
  }

  /** No timed pop and no attempt frees it, unless it is its own time that is over. */
  lemma StrandedThroughTimed<T>(q: Queue<T>, t: nat, c: TimedCall)
    requires Stranded(q, t) && CanTimed(q, c)
    ensures Stranded(TimedDo(q, c).0, t) <==> !(c.TimedOut? && c.t == t)
  {
    if c.TimedWoken? {
      ResumeTallied(q.nPop, q.poppers, c.t);
    }
  }

  /** clear strands the sleeping poppers exactly when pushing is disabled. */
  lemma ClearStrands<T>(q: Queue<T>)
    requires Inv(q)
    ensures Inv(Clear(q)) <==> !(q.poppers.asleep != {} && !q.core.enablePush)
  {
    BroadcastTallied(q.nPush, q.pushers);
    if q.nPush == 0 {
      NobodyAsleep(q.nPush, q.pushers);
    }
  }

  ghost predicate AllStrand(q: Queue<int>) {
    && CanTimed(q, TimedWoken(1, 0, false)) && Stranded(TimedDo(q, TimedWoken(1, 0, false)).0, 2)
    && CanTimed(q, TimedEnter(4, 0)) && Stranded(TimedDo(q, TimedEnter(4, 0)).0, 2)
    && CanTimed(q, TryPop(4, 0)) && Stranded(TimedDo(q, TryPop(4, 0)).0, 2)
    && Stranded(Clear(q), 2)
  }

  /** All happen: two poppers wait, one element is pushed, and the queue is disabled with delay. Then the woken popper,
      if it has a time limit, or a third thread at its entry, takes the element, or the queue is cleared. */
  lemma StrandedPopper()
    ensures exists steps: seq<Step<int>> :: AllStrand(Run(1, steps).q)
  {
    hide Run, Next, AllStrand;
    var s1 := [DoPopEnter(1, 0)];
    var s2 := s1 + [DoPopEnter(2, 0)];
    var s3 := s2 + [DoPushEnter(3, 7, 1)];
    var s4 := s3 + [DoDelayedDisable];
    RunThen(1, [], s1[0]);
    RunThen(1, s1, s2[1]);
    RunThen(1, s2, s3[2]);
    RunThen(1, s3, s4[3]);
    assert [] + [s1[0]] == s1;
    TwoSleepers();
    StrandedByAll(Run(1, s4).q);
  }

  lemma RunThen<T>(capacity: nat, steps: seq<Step<T>>, step: Step<T>)
    ensures Run(capacity, steps + [step]) == Next(Run(capacity, steps), step)
  {
    hide Next;
    assert (steps + [step])[..|steps|] == steps;
  }

  lemma TwoSleepers()
    ensures var a := Next(Next(Run<int>(1, []), DoPopEnter(1, 0)), DoPopEnter(2, 0));
      var q := Next(Next(a, DoPushEnter(3, 7, 1)), DoDelayedDisable).q;
      && q.poppers == Cond({2}, {1}) && q.nPop == 2 && q.nPush == 0 && q.pushers == Cond({}, {})
      && q.core.items == [7] && !q.core.enablePush && q.core.enablePop
  {
    var b := Next(Run<int>(1, []), DoPopEnter(1, 0));
    assert b.q.poppers == Cond({1}, {}) && b.q.nPop == 1;
    var a := Next(b, DoPopEnter(2, 0));
    assert a.q.poppers == Cond({1, 2}, {}) && a.q.nPop == 2;
    var c := Next(a, DoPushEnter(3, 7, 1));
    assert c.q.poppers == Cond({2}, {1}) && c.q.core.items == [7];
  }

  lemma StrandedByAll(q: Queue<int>)
    requires q.poppers == Cond({2}, {1}) && q.nPop == 2 && q.nPush == 0 && q.pushers == Cond({}, {})
    requires q.core.items == [7] && !q.core.enablePush && q.core.enablePop
    ensures AllStrand(q)
  {
  }

  // ---------- the class ----------

  class BQueue<T> {

    var enable_push: bool
    var enable_pop: bool
    var queue: seq<T>
    var nPush: nat
    var nPop: nat
    var condition_pop: Cond
    var condition_push: Cond
    var capacity: nat

    ghost function View(): Queue<T>
      reads this
    {
      Queue(Core(queue, enable_push, enable_pop, capacity), nPush, nPop, condition_push, condition_pop)
    }

    constructor (cap: nat)
      ensures View() == Init(cap).q
    {
      capacity := cap;
      enable_push, enable_pop := cap != INVALID_SIZE, cap != INVALID_SIZE;
      nPush, nPop := 0, 0;
      queue := [];
      condition_push, condition_pop := Cond({}, {}), Cond({}, {});
    }

    /** push as called by thread t; w is the popper the signal goes to. */
    method Push(t: nat, b: T, w: nat) returns (r: Outcome<T>)
      modifies this
      ensures (View(), r) == PushEnter(old(View()), t, b, w)
    {
      nPush := nPush + 1;
      r := PushSection(t, b, w);
    }

    /** push going on after a wait. */
    method PushAgain(t: nat, b: T, w: nat) returns (r: Outcome<T>)
      requires nPush > 0
      modifies this
      ensures (View(), r) == PushWake(old(View()), t, b, w)
    {
      condition_push := Resume(condition_push, t);
      r := PushSection(t, b, w);
    }

    method PushSection(t: nat, b: T, w: nat) returns (r: Outcome<T>)
      requires nPush > 0
      modifies this
      ensures (View(), r) == PushBody(old(View()), t, b, w)
    {
      if enable_push && |queue| >= capacity {
        condition_push := Sleep(condition_push, t);
        return Waiting;
      }
      var did_push := enable_push;
      if did_push {
        queue := queue + [b];
      }
      nPush := nPush - 1;
      if nPop != 0 && did_push {
        condition_pop := Signal(condition_pop, w);
      }
      return if did_push then Pushed else Refused;
    }

    /** pop as called by thread t; w is the pusher the signal goes to. */
    method Pop(t: nat, w: nat) returns (r: Outcome<T>)
      modifies this
      ensures (View(), r) == PopEnter(old(View()), t, w)
    {
      nPop := nPop + 1;
      r := PopSection(t, w);
    }

    /** pop going on after a wait. */
    method PopAgain(t: nat, w: nat) returns (r: Outcome<T>)
      requires nPop > 0
      modifies this
      ensures (View(), r) == PopWake(old(View()), t, w)
    {
      condition_pop := Resume(condition_pop, t);
      r := PopSection(t, w);
    }

    method PopSection(t: nat, w: nat) returns (r: Outcome<T>)
      requires nPop > 0
      modifies this
      ensures (View(), r) == PopBody(old(View()), t, w)
    {
      if enable_pop && queue == [] {
        condition_pop := Sleep(condition_pop, t);
        return Waiting;
      }
      r := Refused;
      var did_pop := enable_pop;
      if did_pop {
        r := Popped(queue[0]);
        queue := queue[1..];
      }
      if !enable_push && queue == [] {
        enable_pop := false;
      }
      nPop := nPop - 1;
      if nPush != 0 && did_pop {
        condition_push := Signal(condition_push, w);
      }
      if nPop != 0 && !enable_pop {
        condition_pop := Broadcast(condition_pop);
      }
    }

    /** A timed pop from the test of its wait loop on; late when the time is over. */
    method TimedSection(t: nat, w: nat, late: bool) returns (r: Outcome<T>)
      requires nPop > 0
      modifies this
      ensures (View(), r) == TimedBody(old(View()), t, w, late)
    {
      if enable_pop && queue == [] && !late {
        condition_pop := Sleep(condition_pop, t);
        return Waiting;
      }
      if enable_pop {
        if queue != [] {
          r := Popped(queue[0]);
          queue := queue[1..];
        } else {
          r := Expired;
        }
      } else {
        r := Refused;
      }
      if !enable_push && queue == [] {
        enable_pop := false;
      }
      nPop := nPop - 1;
      if nPush != 0 && r.Popped? {
        condition_push := Signal(condition_push, w);
      }
    }

    /** An attempt to pop by thread t. */
    method Attempt(t: nat, w: nat) returns (r: Outcome<T>)
      modifies this
      ensures (View(), r) == TimedBody(old(View()).(nPop := old(nPop) + 1), t, w, true)
    {
      nPop := nPop + 1;
      r := Refused;
      if enable_pop {
        if queue == [] {
          r := Expired;
        } else {
          r := Popped(queue[0]);
          queue := queue[1..];
        }
      }
      if !enable_push && queue == [] {
        enable_pop := false;
      }
      nPop := nPop - 1;
      if nPush != 0 && r.Popped? {
        condition_push := Signal(condition_push, w);
      }
    }

    /** Throws the elements away one by one; only the pushers are woken. */
    method ThrowAway()
      modifies this
      ensures View() == Clear(old(View()))
    {
      var did_pop := queue != [];
      while queue != []
        invariant View() == old(View()).(core := old(View()).core.(items := queue))
        decreases |queue|
      {
        queue := queue[1..];
      }
      if !enable_push {
        enable_pop := false;
      }
      if nPush != 0 && did_pop {
        condition_push := Broadcast(condition_push);
      }
    }

    method DisableAll()
      modifies this
      ensures View() == Disable(old(View()))
    {
      enable_push := false;
      enable_pop := false;
      queue := [];
      condition_push := Broadcast(condition_push);
      condition_pop := Broadcast(condition_pop);
    }

    method DisableDelayed()
      modifies this
      ensures View() == DelayedDisable(old(View()))
    {
      enable_push := false;
      if queue == [] {
        enable_pop := false;
      }
      condition_push := Broadcast(condition_push);
      if !enable_pop {
        condition_pop := Broadcast(condition_pop);
      }
    }

    method EnableResized(newcap: nat)
      modifies this
      ensures View() == ResizeEnable(old(View()), newcap)
    {
      enable_push := true;
      enable_pop := true;
      if newcap != 0 {
        capacity := newcap;
      }
      queue := [];
      condition_push := Broadcast(condition_push);
      condition_pop := Broadcast(condition_pop);
    }
  }
}
