/** What each call on the queue does in every reachable state, said by elements and by who sleeps and who is woken: the
    other account of the sections that the BQueues module computes. */
module QueueLaws {
  import opened BQueues

  // ---------- the queue alone ----------

  /** Nobody may push any more; what is queued can still be popped, and with nothing queued popping is over, too. */
  ghost predicate RunsDry<T>(was: Core<T>, now: Core<T>) {
    && now.items == was.items && now.capacity == was.capacity && !now.enablePush
    && (now.enablePop <==> was.enablePop && was.items != [])
  }

  ghost predicate IsDead<T>(was: Core<T>, now: Core<T>) {
    now.items == [] && !now.enablePush && !now.enablePop && now.capacity == was.capacity
  }

  /** Empty, open at both ends, and with a new capacity unless that is zero. */
  ghost predicate Reopened<T>(was: Core<T>, now: Core<T>, newcap: nat) {
    now.items == [] && now.enablePush && now.enablePop && now.capacity == if newcap > 0 then newcap else was.capacity
  }

  lemma Controls<T>(c: Core<T>, newcap: nat)
    ensures RunsDry(c, DelayedDisableCore(c)) && IsDead(c, DisableCore(c))
    ensures Reopened(c, ResizeEnableCore(c, newcap), newcap)
  {
  }

  // ---------- the laws ----------

  /** Thread t sleeps at c now if and only if sleeps, and the others are as they were. */
  ghost predicate OnlyCaller(was: Cond, now: Cond, t: nat, sleeps: bool) {
    && (t in now.asleep <==> sleeps) && t !in now.awake
    && forall k | k != t :: (k in now.asleep <==> k in was.asleep) && (k in now.awake <==> k in was.awake)
  }

  /** A sleeper, if there is one, has been woken: thread w. */
  ghost predicate WokenOne(was: Cond, now: Cond, w: nat) {
    if was.asleep == {} then now == was
    else w in was.asleep && now == Cond(was.asleep - {w}, was.awake + {w})
  }

  ghost predicate WokenAll(was: Cond, now: Cond) {
    now.asleep == {} && now.awake == was.awake + was.asleep
  }

  /** A push is refused when pushing is disabled, waits while the queue is full, and otherwise appends its element and
      wakes a popper. */
  ghost predicate PushLaw<T>(q: Queue<T>, t: nat, x: T, w: nat, next: Queue<T>, r: Outcome<T>) {
    && r == (if !q.core.enablePush then Refused else if |q.core.items| < q.core.capacity then Pushed else Waiting)
    && next.core == (if r.Pushed? then q.core.(items := q.core.items + [x]) else q.core)
    && OnlyCaller(q.pushers, next.pushers, t, r.Waiting?)
    && if r.Pushed? then WokenOne(q.poppers, next.poppers, w) else next.poppers == q.poppers
  }

  /** What popping leaves of the queue: popping is over when pushing is and nothing is left. */
  ghost predicate PopsFirst<T>(was: Core<T>, now: Core<T>, r: Outcome<T>) {
    && (if r.Popped? then was.items == [r.value] + now.items else now.items == was.items)
    && now.enablePush == was.enablePush && now.capacity == was.capacity
    && (now.enablePop <==> was.enablePush || now.items != [])
  }

  /** A pop is refused when popping is disabled, waits while the queue is empty, and otherwise takes the first element
      and wakes a pusher; when popping is over it wakes all who sleep for an element. */
  ghost predicate PopLaw<T>(q: Queue<T>, t: nat, w: nat, next: Queue<T>, r: Outcome<T>) {
    && (if !q.core.enablePop then r.Refused? else if q.core.items == [] then r.Waiting? else r.Popped?)
    && PopsFirst(q.core, next.core, r)
    && (if r.Popped? then WokenOne(q.pushers, next.pushers, w) else next.pushers == q.pushers)
    && if next.core.enablePop then OnlyCaller(q.poppers, next.poppers, t, r.Waiting?)
       else next.poppers.asleep == {} && next.poppers.awake == q.poppers.awake + q.poppers.asleep - {t}
  }

  /** A timed pop does the same, except that it gives up when late, and wakes no popper at all. */
  ghost predicate TimedLaw<T>(q: Queue<T>, t: nat, w: nat, late: bool, next: Queue<T>, r: Outcome<T>) {
    && (if !q.core.enablePop then r.Refused?
        else if q.core.items != [] then r.Popped?
        else if late then r.Expired? else r.Waiting?)
    && PopsFirst(q.core, next.core, r)
    && (if r.Popped? then WokenOne(q.pushers, next.pushers, w) else next.pushers == q.pushers)
    && OnlyCaller(q.poppers, next.poppers, t, r.Waiting?)
  }

  /** An attempt to pop is late at once. */
  predicate IsLate(c: TimedCall) {
    c.TimedOut? || c.TryPop? || (c.TimedWoken? && c.late)
  }

  ghost predicate StepLaw<T>(q: Queue<T>, step: Step<T>, next: Queue<T>, r: Outcome<T>) {
    match step
    case DoPushEnter(t, x, w) => PushLaw(q, t, x, w, next, r)
    case DoPushWake(t, x, w) => PushLaw(q, t, x, w, next, r)
    case DoPopEnter(t, w) => PopLaw(q, t, w, next, r)
    case DoPopWake(t, w) => PopLaw(q, t, w, next, r)
    case DoDisable =>
      IsDead(q.core, next.core) && WokenAll(q.pushers, next.pushers) && WokenAll(q.poppers, next.poppers)
    case DoDelayedDisable =>
      && RunsDry(q.core, next.core) && WokenAll(q.pushers, next.pushers)
      && if next.core.enablePop then next.poppers == q.poppers else WokenAll(q.poppers, next.poppers)
    case DoResizeEnable(newcap) =>
      Reopened(q.core, next.core, newcap) && WokenAll(q.pushers, next.pushers) && WokenAll(q.poppers, next.poppers)
    case SpuriousPusher(t) => next == q.(pushers := Cond(q.pushers.asleep - {t}, q.pushers.awake + {t}))
    case SpuriousPopper(t) => next == q.(poppers := Cond(q.poppers.asleep - {t}, q.poppers.awake + {t}))
  }

  // ---------- every section keeps them ----------

  lemma Signals(n: nat, c: Cond, w: nat)
    requires Tallied(n, c) && Target(c, w)
    ensures WokenOne(c, if n != 0 then Signal(c, w) else c, w)
  {
    NobodyAsleep(n, c);
  }

  lemma PushBodyObeys<T>(q: Queue<T>, t: nat, x: T, w: nat)
    requires PusherReady(q, t) && Target(q.poppers, w)
    ensures var (next, r) := PushBody(q, t, x, w); PushLaw(q, t, x, w, next, r)
  {
    Signals(q.nPop, q.poppers, w);
    hide Signal, Target, Tallied;
  }

  lemma WakesAll(n: nat, c: Cond, t: nat)
    requires Tallied(n, c) && !Waits(c, t)
    ensures (if n != 0 then Broadcast(c) else c) == Cond({}, c.awake + c.asleep - {t})
  {
    assert c.awake + c.asleep - {t} == c.awake + c.asleep;
    if n == 0 {
      assert c.asleep == {} && c.awake == {};
      assert c.awake + c.asleep == {};
    }
  }

  lemma PopCoreObeys<T>(c: Core<T>, r: Outcome<T>)
    requires CoreInv(c) && !PopBlocked(c) && r == (if c.enablePop then Popped(c.items[0]) else Refused)
    ensures PopsFirst(c, PopCore(c), r)
  {
  }

  lemma PopBodyObeys<T>(q: Queue<T>, t: nat, w: nat)
    requires PopperReady(q, t) && Target(q.pushers, w)
    ensures var (next, r) := PopBody(q, t, w); PopLaw(q, t, w, next, r)
  {
    Signals(q.nPush, q.pushers, w);
    WakesAll(q.nPop - 1, q.poppers, t);
    if !PopBlocked(q.core) {
      PopCoreObeys(q.core, if q.core.enablePop then Popped(q.core.items[0]) else Refused);
      hide PopsFirst, PopCore;
    }
    hide Signal, Broadcast, Target, WokenOne, Tallied;
  }

  lemma TimedBodyObeys<T>(q: Queue<T>, t: nat, w: nat, late: bool)
    requires PopperReady(q, t) && Target(q.pushers, w)
    ensures var (next, r) := TimedBody(q, t, w, late); TimedLaw(q, t, w, late, next, r)
  {
    Signals(q.nPush, q.pushers, w);
    hide Signal, Target;
  }

  lemma PushObeys<T>(q: Queue<T>, t: nat, x: T, w: nat)
    requires Inv(q) && Target(q.poppers, w)
    ensures !Waits(q.pushers, t) ==> PushLaw(q, t, x, w, PushEnter(q, t, x, w).0, PushEnter(q, t, x, w).1)
    ensures t in q.pushers.awake && q.nPush > 0 ==> PushLaw(q, t, x, w, PushWake(q, t, x, w).0, PushWake(q, t, x, w).1)
  {
    if t in q.pushers.awake {
      ResumeTallied(q.nPush, q.pushers, t);
      PushBodyObeys(q.(pushers := Resume(q.pushers, t)), t, x, w);
    } else if !Waits(q.pushers, t) {
      PushBodyObeys(q.(nPush := q.nPush + 1), t, x, w);
    }
    hide PushBody, WokenOne, Tallied, Target;
  }

  /** That a woken popper had been waiting makes no difference. */
  lemma ResumedPop<T>(q: Queue<T>, t: nat, w: nat, next: Queue<T>, r: Outcome<T>)
    requires PopLaw(q.(poppers := Resume(q.poppers, t)), t, w, next, r) && t !in q.poppers.asleep
    ensures PopLaw(q, t, w, next, r)
  {
    hide WokenOne, PopsFirst;
    assert q.poppers.awake - {t} + q.poppers.asleep - {t} == q.poppers.awake + q.poppers.asleep - {t};
  }

  lemma PopEnterObeys<T>(q: Queue<T>, t: nat, w: nat)
    requires Inv(q) && Target(q.pushers, w) && !Waits(q.poppers, t)
    ensures PopLaw(q, t, w, PopEnter(q, t, w).0, PopEnter(q, t, w).1)
  {
    PopBodyObeys(q.(nPop := q.nPop + 1), t, w);
    hide PopBody, WokenOne, PopsFirst, OnlyCaller, Tallied, Target;
  }

  lemma PopWakeObeys<T>(q: Queue<T>, t: nat, w: nat)
    requires Inv(q) && Target(q.pushers, w) && t in q.poppers.awake && q.nPop > 0
    ensures PopLaw(q, t, w, PopWake(q, t, w).0, PopWake(q, t, w).1)
  {
    ResumeTallied(q.nPop, q.poppers, t);
    PopBodyObeys(q.(poppers := Resume(q.poppers, t)), t, w);
    assert t !in q.poppers.asleep;
    hide PopBody, PopLaw, Inv;
    ResumedPop(q, t, w, PopWake(q, t, w).0, PopWake(q, t, w).1);
  }

  lemma StepObeys<T>(q: Queue<T>, step: Step<T>)
    requires Inv(q) && Enabled(q, step)
    ensures StepLaw(q, step, Do(q, step).0, Do(q, step).1)
  {
    hide PushLaw, PopLaw, PushEnter, PushWake, PopEnter, PopWake, Inv;
    match step
    case DoPushEnter(t, x, w) => PushObeys(q, t, x, w);
    case DoPushWake(t, x, w) => PushObeys(q, t, x, w);
    case DoPopEnter(t, w) => PopEnterObeys(q, t, w);
    case DoPopWake(t, w) => PopWakeObeys(q, t, w);
    case DoResizeEnable(newcap) => Controls(q.core, newcap);
    case _ => Controls(q.core, 0);
  }

  // ---------- over all runs ----------

  /** In every state that a run reaches, every step obeys its law. */
  lemma {:induction false} EveryStep<T>(capacity: nat, steps: seq<Step<T>>, step: Step<T>)
    ensures var q := Run(capacity, steps).q;
      Enabled(q, step) ==> StepLaw(q, step, Do(q, step).0, Do(q, step).1)
  {
    RunInv(capacity, steps);
    var q := Run(capacity, steps).q;
    hide StepLaw, Do, Enabled, Run, Inv;
    if Enabled(q, step) {
      StepObeys(q, step);
    }
  }

  /** So does every timed pop and every attempt to pop. */
  lemma {:induction false} EveryTimedPop<T>(capacity: nat, steps: seq<Step<T>>, c: TimedCall)
    ensures var q := Run(capacity, steps).q;
      CanTimed(q, c) ==> TimedLaw(q, c.t, c.w, IsLate(c), TimedDo(q, c).0, TimedDo(q, c).1)
  {
    RunInv(capacity, steps);
    var q := Run(capacity, steps).q;
    hide Run, TimedLaw, TimedDo;
    if CanTimed(q, c) {
      TimedObeys(q, c);
    }
  }

  lemma TimedObeys<T>(q: Queue<T>, c: TimedCall)
    requires Inv(q) && CanTimed(q, c)
    ensures TimedLaw(q, c.t, c.w, IsLate(c), TimedDo(q, c).0, TimedDo(q, c).1)
  {
    ReadyHolds(q, c);
    ReadyTarget(q, c);
    hide Inv, PopperReady, TimedBody, TimedLaw, Ready, Target;
    TimedBodyObeys(Ready(q, c), c.t, c.w, IsLate(c));
    ReadyLaw(q, c, TimedDo(q, c).0, TimedDo(q, c).1);
  }

  lemma ReadyTarget<T>(q: Queue<T>, c: TimedCall)
    requires CanTimed(q, c)
    ensures Target(Ready(q, c).pushers, c.w)
  {
  }

  /** Being ready makes a difference to the caller alone. */
  lemma ReadyLaw<T>(q: Queue<T>, c: TimedCall, next: Queue<T>, r: Outcome<T>)
    requires TimedLaw(Ready(q, c), c.t, c.w, IsLate(c), next, r)
    ensures TimedLaw(q, c.t, c.w, IsLate(c), next, r)
  {
    hide WokenOne, PopsFirst;
  }

  /** clear throws everything away, and wakes the pushers if that made room. */
  lemma ClearObeys<T>(q: Queue<T>)
    requires Inv(q)
    ensures var next := Clear(q);
      && next.core.items == [] && next.core.capacity == q.core.capacity && next.core.enablePush == q.core.enablePush
      && (next.core.enablePop <==> q.core.enablePush) && next.poppers == q.poppers
      && if q.core.items == [] then next.pushers == q.pushers else WokenAll(q.pushers, next.pushers)
  {
    NobodyAsleep(q.nPush, q.pushers);
    assert q.pushers.asleep == {} ==> q.pushers.awake + q.pushers.asleep == q.pushers.awake;
  }

  /** A queue never holds more than its capacity. */
  lemma {:induction false} NeverOverfull<T>(capacity: nat, steps: seq<Step<T>>)
    ensures var c := Run(capacity, steps).q.core; |c.items| <= c.capacity
  {
    if steps != [] {
      var s, step := Run(capacity, steps[..|steps| - 1]), steps[|steps| - 1];
      NeverOverfull(capacity, steps[..|steps| - 1]);
      EveryStep(capacity, steps[..|steps| - 1], step);
      hide Do, Enabled, OnlyCaller, WokenOne, WokenAll;
    }
  }
}
