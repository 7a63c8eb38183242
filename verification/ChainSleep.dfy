/** The chain with threads that really sleep: each queue is the whole monitor with its condition variables, and a thread
    that has fallen asleep there goes on only once it has been woken. What this chain does is what the one does whose
    threads wait by themselves, and it never sleeps for good. */
module ChainSleep {
  import opened Chains
  import opened ChainDrain
  import B = BQueues

  /** A chain, its queues with the threads waiting at them, and what the producers that wait came to push. */
  datatype Sleepy<T> = Sleepy(st: State<T>, queues: seq<B.Queue<Item<T>>>, wants: map<nat, T>)

  /** A thread goes on with an act, w being the thread signalled if there is a signal; other acts happen; or a sleeper
      wakes up for no reason. */
  datatype Deed<T> =
    | Go(act: Act<T>, w: nat)
    | WakePusher(q: nat, k: nat)
    | WakePopper(q: nat, k: nat)

  /** What is queued is what the chain has queued, and a queue stands between two steps. */
  ghost predicate Fitting<T>(z: Sleepy<T>) {
    && Shaped(z.st) && |z.queues| == |z.st.shared.queues|
    && forall q | 0 <= q < |z.queues| :: z.queues[q].core == z.st.shared.queues[q]
  }

  /** Thread (s, k) waits at the queue behind its step or at the one before it. */
  ghost predicate Waiting<T>(z: Sleepy<T>, s: nat, k: nat) {
    || (s < |z.queues| && B.Waits(z.queues[s].pushers, k))
    || (0 < s <= |z.queues| && B.Waits(z.queues[s - 1].poppers, k))
  }

  /** Which deeds can happen: a thread that has fallen asleep does nothing. */
  ghost predicate CanDo<T>(z: Sleepy<T>, deed: Deed<T>)
    requires Fitting(z)
  {
    match deed
    case Go(act, w) =>
      (match act
       case Produce(k, v) =>
         && At(z.st, 0, k, Working) && PushReady(z.queues[0], k, w)
         && (k in z.queues[0].pushers.awake ==> k in z.wants && z.wants[k] == v)
       case Put(s, k) => s > 0 && HoldsAt(z.st, s, k) && (s < |z.queues| ==> PushReady(z.queues[s], k, w))
       case Take(s, k) => s > 0 && At(z.st, s, k, Working) && PopReady(z.queues[s - 1], k, w)
       case Quit(k) => Can(z.st, act) && !Waiting(z, 0, k)
       case Abandon(s, k) => Can(z.st, act) && !Waiting(z, s, k)
       case _ => Can(z.st, act))
    case WakePusher(q, k) => q < |z.queues| && k in z.queues[q].pushers.asleep
    case WakePopper(q, k) => q < |z.queues| && k in z.queues[q].poppers.asleep
  }

  ghost predicate PushReady<T>(q: B.Queue<T>, k: nat, w: nat) {
    k !in q.pushers.asleep && B.Target(q.poppers, w)
  }

  ghost predicate PopReady<T>(q: B.Queue<T>, k: nat, w: nat) {
    k !in q.poppers.asleep && B.Target(q.pushers, w)
  }

  /** Thread k enters push, or goes on with it after it has been woken. */
  function PushOn<T>(q: B.Queue<T>, k: nat, x: T, w: nat): (B.Queue<T>, B.Outcome<T>) {
    if k in q.pushers.awake && q.nPush > 0 then B.PushWake(q, k, x, w) else B.PushEnter(q, k, x, w)
  }

  function PopOn<T>(q: B.Queue<T>, k: nat, w: nat): (B.Queue<T>, B.Outcome<T>) {
    if k in q.poppers.awake && q.nPop > 0 then B.PopWake(q, k, w) else B.PopEnter(q, k, w)
  }

  /** What the acts that shut queues do to all of them. */
  ghost function Controlled<T>(z: Sleepy<T>, act: Act<T>): (r: seq<B.Queue<Item<T>>>)
    requires Fitting(z)
    ensures |r| == |z.queues|
  {
    var qs := z.queues;
    match act
    case CloseOutput(s, k) => if s < |qs| then qs[s := B.DelayedDisable(qs[s])] else qs
    case CloseInput(s, k) => if 0 < s <= |qs| then qs[s - 1 := B.Disable(qs[s - 1])] else qs
    case StopGently(_) =>
      if z.st.shared.running && !z.st.shared.cancelled then qs[0 := B.DelayedDisable(qs[0])] else qs
    case DisableBluntly(q) => if q < |qs| then qs[q := B.Disable(qs[q])] else qs
    case _ => qs
  }

  ghost function Do<T>(c: Config<T>, z: Sleepy<T>, deed: Deed<T>): Sleepy<T>
    requires Fitting(z)
  {
    if !CanDo(z, deed) then z
    else
      match deed
      case Go(act, w) =>
        if act.Produce? then
          var (q, outcome) := PushOn(z.queues[0], act.k, Item(|z.st.stages[0].put|, act.value), w);
          if outcome.Waiting? then z.(queues := z.queues[0 := q], wants := z.wants[act.k := act.value])
          else z.(st := Next(c, z.st, act), queues := z.queues[0 := q])
        else if act.Put? && act.s < |z.queues| then
          var x := z.st.stages[act.s].threads[act.k].x;
          var (q, outcome) := PushOn(z.queues[act.s], act.k, Item(x.id, c.work(act.s, x.value)), w);
          z.(st := if outcome.Waiting? then z.st else Next(c, z.st, act), queues := z.queues[act.s := q])
        else if act.Take? then
          var (q, outcome) := PopOn(z.queues[act.s - 1], act.k, w);
          z.(st := if outcome.Waiting? then z.st else Next(c, z.st, act), queues := z.queues[act.s - 1 := q])
        else
          z.(st := Next(c, z.st, act), queues := Controlled(z, act))
      case WakePusher(q, k) =>
        z.(queues := z.queues[q := z.queues[q].(pushers := B.Signal(z.queues[q].pushers, k))])
      case WakePopper(q, k) =>
        z.(queues := z.queues[q := z.queues[q].(poppers := B.Signal(z.queues[q].poppers, k))])
  }

  ghost function Start<T>(c: Config<T>): (z: Sleepy<T>)
    requires Sensible(c)
    ensures Fitting(z)
  {
    var st := Init(c);
    Sleepy(st, seq(|c.caps|, q requires 0 <= q < |c.caps| =>
      B.Queue(st.shared.queues[q], 0, 0, B.Cond({}, {}), B.Cond({}, {}))), map[])
  }

  // ---------- one queue ----------

  lemma PushOnKeeps<T>(q: B.Queue<T>, k: nat, x: T, w: nat)
    requires B.Inv(q) && PushReady(q, k, w)
    ensures var (r, outcome) := PushOn(q, k, x, w);
      && B.Inv(r) && (outcome.Waiting? <==> B.PushBlocked(q.core))
      && r.core == (if outcome.Waiting? then q.core else B.PushCore(q.core, x))
      && (forall j :: B.Waits(r.pushers, j) <==> if j == k then outcome.Waiting? else B.Waits(q.pushers, j))
      && (forall j :: B.Waits(r.poppers, j) <==> B.Waits(q.poppers, j))
  {
    B.PushKeeps(q, k, x, w);
    if k in q.pushers.awake {
      B.ResumeTallied(q.nPush, q.pushers, k);
    }
    hide B.Inv;
  }

  lemma PopOnKeeps<T>(q: B.Queue<T>, k: nat, w: nat)
    requires B.Inv(q) && PopReady(q, k, w)
    ensures B.PopBlocked(q.core) || !q.core.enablePop || q.core.items != []
    ensures var (r, outcome) := PopOn(q, k, w);
      && B.Inv(r) && (outcome.Waiting? <==> B.PopBlocked(q.core))
      && r.core == (if outcome.Waiting? then q.core else B.PopCore(q.core))
      && (forall j :: B.Waits(r.poppers, j) <==> if j == k then outcome.Waiting? else B.Waits(q.poppers, j))
      && (forall j :: B.Waits(r.pushers, j) <==> B.Waits(q.pushers, j))
  {
    B.PopKeeps(q, k, w);
    if k in q.poppers.awake {
      B.ResumeTallied(q.nPop, q.poppers, k);
    }
    hide B.Inv;
  }

  lemma ControlledKeeps<T>(z: Sleepy<T>, act: Act<T>, q: nat)
    requires Fitting(z) && q < |z.queues| && B.Inv(z.queues[q])
    ensures var r := Controlled(z, act)[q];
      && B.Inv(r)
      && (forall j :: B.Waits(r.pushers, j) <==> B.Waits(z.queues[q].pushers, j))
      && (forall j :: B.Waits(r.poppers, j) <==> B.Waits(z.queues[q].poppers, j))
  {
    B.ControlKeeps(z.queues[q], 0);
    hide B.Inv;
  }

  // ---------- the chain ----------

  /** Who waits at queue q is about to push or to pop, and the queue has lost no wake-up. */
  ghost predicate QueueInv<T>(z: Sleepy<T>, q: nat)
    requires Fitting(z) && q < |z.queues|
  {
    var b := z.queues[q];
    && B.Inv(b)
    && (forall k | B.Waits(b.pushers, k) :: Pushes(z, q, k))
    && (forall k | B.Waits(b.poppers, k) :: At(z.st, q + 1, k, Working))
  }

  ghost predicate Pushes<T>(z: Sleepy<T>, q: nat, k: nat) {
    if q == 0 then At(z.st, 0, k, Working) && k in z.wants else HoldsAt(z.st, q, k)
  }

  ghost predicate SleepInv<T>(z: Sleepy<T>) {
    Fitting(z) && forall q | 0 <= q < |z.queues| :: QueueInv(z, q)
  }

  /** It is an act of thread (s, k). */
  predicate By<T>(act: Act<T>, s: nat, k: nat) {
    match act
    case Produce(j, _) => s == 0 && j == k
    case Quit(j) => s == 0 && j == k
    case Take(r, j) => r == s && j == k
    case Put(r, j) => r == s && j == k
    case Abandon(r, j) => r == s && j == k
    case Leave(r, j) => r == s && j == k
    case CloseOutput(r, j) => r == s && j == k
    case CloseInput(r, j) => r == s && j == k
    case Count(r, j) => r == s && j == k
    case Finals(r, j) => r == s && j == k
    case _ => false
  }

  /** An act moves nobody but its thread. */
  lemma OthersStay<T>(c: Config<T>, st: State<T>, act: Act<T>, s: nat, k: nat, p: Phase<T>)
    requires Shaped(st) && Can(st, act) && !By(act, s, k)
    ensures |Next(c, st, act).stages| == |st.stages|
    ensures At(st, s, k, p) ==> At(Next(c, st, act), s, k, p)
  {
    hide Total, B.PushCore, B.PopCore, B.DelayedDisableCore, B.DisableCore, SignOff, CountDown, RunsFinals, GentleStop,
      ShutOutput, ShutInput;
  }

  /** What an act makes of what is queued. */
  lemma CoresAfter<T>(c: Config<T>, st: State<T>, act: Act<T>, q: nat)
    requires Shaped(st) && Can(st, act) && q < |st.shared.queues|
    ensures |Next(c, st, act).shared.queues| == |st.shared.queues|
    ensures act.Take? && q == act.s - 1 ==> !B.PopBlocked(st.shared.queues[q])
    ensures var was, now := st.shared.queues[q], Next(c, st, act).shared.queues[q];
      match act
      case Produce(k, v) => now == if q == 0 then B.PushCore(was, Item(|st.stages[0].put|, v)) else was
      case Put(s, k) =>
        var x := st.stages[s].threads[k].x;
        now == if q == s then B.PushCore(was, Item(x.id, c.work(s, x.value))) else was
      case Take(s, k) => now == if q == s - 1 then B.PopCore(was) else was
      case CloseOutput(s, k) => now == if q == s then B.DelayedDisableCore(was) else was
      case CloseInput(s, k) => now == if q == s - 1 then B.DisableCore(was) else was
      case StopGently(_) =>
        now == if q == 0 && st.shared.running && !st.shared.cancelled then B.DelayedDisableCore(was) else was
      case DisableBluntly(d) => now == if q == d then B.DisableCore(was) else was
      case _ => now == was
  {
    hide Total, B.PopCore, B.DelayedDisableCore, B.DisableCore, SignOff, CountDown, RunsFinals;
    match act
    case Leave(_, _) => SharedKept(st, act);
    case Count(_, _) => SharedKept(st, act);
    case _ =>
  }

  lemma SharedKept<T>(st: State<T>, act: Act<T>)
    requires Shaped(st) && Can(st, act)
    ensures act.Leave? ==> SignOff(st.shared, act.s).0.queues == st.shared.queues
    ensures act.Count? ==> CountDown(st.shared).0.queues == st.shared.queues
  {
  }

  /** A thread waits only where its phase says. */
  lemma NotElsewhere<T>(z: Sleepy<T>, s: nat, k: nat)
    requires SleepInv(z) && s < |z.st.stages| && k < |z.st.stages[s].threads|
    ensures var p := z.st.stages[s].threads[k];
      && (s > 0 && p == Working && s < |z.queues| ==> !B.Waits(z.queues[s].pushers, k))
      && (s > 0 && p.Holding? ==> !B.Waits(z.queues[s - 1].poppers, k))
      && (p != Working && !p.Holding? ==> !Waiting(z, s, k))
  {
    if s < |z.queues| {
      assert QueueInv(z, s);
    }
    if s > 0 {
      assert QueueInv(z, s - 1);
    }
    hide B.Inv;
  }

  /** An act happens, and nobody waits who did not wait before or whose act it is. */
  lemma ActKeeps<T>(c: Config<T>, z: Sleepy<T>, act: Act<T>, next: Sleepy<T>, q: nat)
    requires SleepInv(z) && Can(z.st, act) && Fitting(next) && next.st == Next(c, z.st, act) && next.wants == z.wants
    requires q < |z.queues| == |next.queues| && B.Inv(next.queues[q])
    requires forall j: nat :: B.Waits(next.queues[q].pushers, j) ==>
      B.Waits(z.queues[q].pushers, j) && !By(act, q, j)
    requires forall j: nat :: B.Waits(next.queues[q].poppers, j) ==>
      B.Waits(z.queues[q].poppers, j) && !By(act, q + 1, j)
    ensures QueueInv(next, q)
  {
    assert QueueInv(z, q);
    hide B.Inv, Next, Can, B.Waits;
    forall j: nat | B.Waits(next.queues[q].pushers, j)
      ensures Pushes(next, q, j)
    {
      assert Pushes(z, q, j);
      OthersStay(c, z.st, act, q, j, z.st.stages[q].threads[j]);
    }
    forall j: nat | B.Waits(next.queues[q].poppers, j)
      ensures At(next.st, q + 1, j, Working)
    {
      OthersStay(c, z.st, act, q + 1, j, Working);
    }
  }

  /** Nothing happens in the chain, and whoever begins to wait is about to push or to pop. */
  lemma SleepKeeps<T>(z: Sleepy<T>, next: Sleepy<T>, q: nat)
    requires SleepInv(z) && Fitting(next) && next.st == z.st && z.wants.Keys <= next.wants.Keys
    requires q < |z.queues| == |next.queues| && B.Inv(next.queues[q])
    requires forall j: nat :: B.Waits(next.queues[q].pushers, j) ==>
      B.Waits(z.queues[q].pushers, j) || Pushes(next, q, j)
    requires forall j: nat :: B.Waits(next.queues[q].poppers, j) ==>
      B.Waits(z.queues[q].poppers, j) || At(z.st, q + 1, j, Working)
    ensures QueueInv(next, q)
  {
    assert QueueInv(z, q);
    hide B.Inv, B.Waits;
  }

  // ---------- every deed ----------

  /** The act happens in the chain if nothing blocks it, and otherwise nothing does. */
  ghost predicate GoesOn<T>(c: Config<T>, z: Sleepy<T>, act: Act<T>, next: Sleepy<T>)
    requires Fitting(z)
  {
    SleepInv(next) && next.st == if Can(z.st, act) then Next(c, z.st, act) else z.st
  }

  lemma DoProduce<T>(c: Config<T>, z: Sleepy<T>, k: nat, v: T, w: nat)
    requires SleepInv(z) && CanDo(z, Go(Produce(k, v), w))
    ensures GoesOn(c, z, Produce(k, v), Do(c, z, Go(Produce(k, v), w)))
  {
    var act := Produce(k, v);
    var next := Do(c, z, Go(act, w));
    assert QueueInv(z, 0);
    PushOnKeeps(z.queues[0], k, Item(|z.st.stages[0].put|, v), w);
    hide B.Inv, B.Waits, PushOn, Next, PushReady;
    if Can(z.st, act) {
      forall q | 0 <= q < |z.queues|
        ensures |next.st.shared.queues| == |z.queues| && next.queues[q].core == next.st.shared.queues[q]
      {
        CoresAfter(c, z.st, act, q);
      }
      forall q | 0 <= q < |z.queues|
        ensures QueueInv(next, q)
      {
        assert QueueInv(z, q);
        ActKeeps(c, z, act, next, q);
      }
    } else {
      forall q | 0 <= q < |z.queues|
        ensures QueueInv(next, q)
      {
        assert QueueInv(z, q);
        SleepKeeps(z, next, q);
      }
    }
  }

  lemma DoPut<T>(c: Config<T>, z: Sleepy<T>, s: nat, k: nat, w: nat)
    requires SleepInv(z) && CanDo(z, Go(Put(s, k), w)) && s < |z.queues|
    ensures GoesOn(c, z, Put(s, k), Do(c, z, Go(Put(s, k), w)))
  {
    var act := Put(s, k);
    var next := Do(c, z, Go(act, w));
    var x := z.st.stages[s].threads[k].x;
    assert QueueInv(z, s);
    PushOnKeeps(z.queues[s], k, Item(x.id, c.work(s, x.value)), w);
    NotElsewhere(z, s, k);
    hide B.Inv, B.Waits, PushOn, Next, PushReady;
    if Can(z.st, act) {
      forall q | 0 <= q < |z.queues|
        ensures |next.st.shared.queues| == |z.queues| && next.queues[q].core == next.st.shared.queues[q]
      {
        CoresAfter(c, z.st, act, q);
      }
      forall q | 0 <= q < |z.queues|
        ensures QueueInv(next, q)
      {
        assert QueueInv(z, q);
        ActKeeps(c, z, act, next, q);
      }
    } else {
      forall q | 0 <= q < |z.queues|
        ensures QueueInv(next, q)
      {
        assert QueueInv(z, q);
        SleepKeeps(z, next, q);
      }
    }
  }

  lemma DoTake<T>(c: Config<T>, z: Sleepy<T>, s: nat, k: nat, w: nat)
    requires SleepInv(z) && CanDo(z, Go(Take(s, k), w))
    ensures GoesOn(c, z, Take(s, k), Do(c, z, Go(Take(s, k), w)))
  {
    var act := Take(s, k);
    var next := Do(c, z, Go(act, w));
    assert QueueInv(z, s - 1);
    PopOnKeeps(z.queues[s - 1], k, w);
    assert next.queues == z.queues[s - 1 := PopOn(z.queues[s - 1], k, w).0];
    hide B.Inv, B.Waits, PopOn, Next, PopReady, B.PopCore, Do;
    if Can(z.st, act) {
      Taken(c, z, s, k, next);
    } else {
      forall q | 0 <= q < |z.queues|
        ensures QueueInv(next, q)
      {
        assert QueueInv(z, q);
        SleepKeeps(z, next, q);
      }
    }
  }

  lemma Taken<T>(c: Config<T>, z: Sleepy<T>, s: nat, k: nat, next: Sleepy<T>)
    requires SleepInv(z) && 0 < s <= |z.queues| && Can(z.st, Take(s, k)) && next.wants == z.wants
    requires next.st == Next(c, z.st, Take(s, k)) && |next.queues| == |z.queues|
    requires forall q | 0 <= q < |z.queues| && q != s - 1 :: next.queues[q] == z.queues[q]
    requires var was, now := z.queues[s - 1], next.queues[s - 1];
      && B.Inv(now) && now.core == B.PopCore(was.core)
      && (forall j :: B.Waits(now.poppers, j) <==> j != k && B.Waits(was.poppers, j))
      && (forall j :: B.Waits(now.pushers, j) <==> B.Waits(was.pushers, j))
    ensures SleepInv(next)
  {
    NotElsewhere(z, s, k);
    hide B.Inv, B.Waits, Next, B.PopCore;
    forall q | 0 <= q < |z.queues|
      ensures |next.st.shared.queues| == |z.queues| && next.queues[q].core == next.st.shared.queues[q]
    {
      CoresAfter(c, z.st, Take(s, k), q);
    }
    forall q | 0 <= q < |z.queues|
      ensures QueueInv(next, q)
    {
      assert QueueInv(z, q);
      ActKeeps(c, z, Take(s, k), next, q);
    }
  }

  /** The acts that go to no queue for an element. */
  predicate AtNoQueue<T>(act: Act<T>, queues: nat) {
    !act.Produce? && !act.Take? && (act.Put? ==> act.s >= queues)
  }

  lemma DoOther<T>(c: Config<T>, z: Sleepy<T>, act: Act<T>, w: nat)
    requires SleepInv(z) && CanDo(z, Go(act, w)) && AtNoQueue(act, |z.queues|)
    ensures Can(z.st, act) && GoesOn(c, z, act, Do(c, z, Go(act, w)))
  {
    var next := Do(c, z, Go(act, w));
    assert Can(z.st, act) && next.queues == Controlled(z, act) && next.st == Next(c, z.st, act);
    forall q | 0 <= q < |z.queues|
      ensures |next.st.shared.queues| == |z.queues| && next.queues[q].core == next.st.shared.queues[q]
    {
      CoresAfter(c, z.st, act, q);
      hide Next, Can, CanDo;
    }
    forall q | 0 <= q < |z.queues|
      ensures QueueInv(next, q)
    {
      assert QueueInv(z, q);
      ControlledKeeps(z, act, q);
      StandsAside(z, act, w, q);
      hide Next, Can, CanDo, Controlled, B.Inv;
      ActKeeps(c, z, act, next, q);
    }
  }

  /** The thread of such an act waits at no queue. */
  lemma StandsAside<T>(z: Sleepy<T>, act: Act<T>, w: nat, q: nat)
    requires SleepInv(z) && CanDo(z, Go(act, w)) && AtNoQueue(act, |z.queues|) && q < |z.queues|
    ensures forall j: nat | B.Waits(z.queues[q].pushers, j) :: !By(act, q, j)
    ensures forall j: nat | B.Waits(z.queues[q].poppers, j) :: !By(act, q + 1, j)
  {
    assert QueueInv(z, q);
    forall j: nat | B.Waits(z.queues[q].pushers, j)
      ensures !By(act, q, j)
    {
      if By(act, q, j) {
        NotElsewhere(z, q, j);
      }
    }
    forall j: nat | B.Waits(z.queues[q].poppers, j)
      ensures !By(act, q + 1, j)
    {
      if By(act, q + 1, j) {
        NotElsewhere(z, q + 1, j);
      }
    }
  }

  lemma DoWake<T>(c: Config<T>, z: Sleepy<T>, deed: Deed<T>)
    requires SleepInv(z) && CanDo(z, deed) && !deed.Go?
    ensures SleepInv(Do(c, z, deed)) && Do(c, z, deed).st == z.st
  {
    var next := Do(c, z, deed);
    forall q | 0 <= q < |z.queues|
      ensures QueueInv(next, q)
    {
      assert QueueInv(z, q);
      WokenKeeps(z.queues[q], deed.k);
      hide B.Inv, Do;
      SleepKeeps(z, next, q);
    }
  }

  lemma WokenKeeps<T>(q: B.Queue<T>, k: nat)
    requires B.Inv(q)
    ensures k in q.pushers.asleep ==> B.Inv(q.(pushers := B.Signal(q.pushers, k)))
    ensures k in q.poppers.asleep ==> B.Inv(q.(poppers := B.Signal(q.poppers, k)))
    ensures forall j :: B.Waits(B.Signal(q.pushers, k), j) <==> B.Waits(q.pushers, j)
    ensures forall j :: B.Waits(B.Signal(q.poppers, k), j) <==> B.Waits(q.poppers, j)
  {
    B.SpuriousKeeps(q, k);
    hide B.Inv;
  }

  lemma DoKeeps<T>(c: Config<T>, z: Sleepy<T>, deed: Deed<T>)
    requires SleepInv(z)
    ensures SleepInv(Do(c, z, deed))
    ensures CanDo(z, deed) && deed.Go? ==> GoesOn(c, z, deed.act, Do(c, z, deed))
    ensures !deed.Go? || !CanDo(z, deed) ==> Do(c, z, deed).st == z.st
  {
    if CanDo(z, deed) {
      if !deed.Go? {
        DoWake(c, z, deed);
      } else if deed.act.Produce? {
        DoProduce(c, z, deed.act.k, deed.act.value, deed.w);
      } else if deed.act.Take? {
        DoTake(c, z, deed.act.s, deed.act.k, deed.w);
      } else if AtNoQueue(deed.act, |z.queues|) {
        DoOther(c, z, deed.act, deed.w);
      } else {
        DoPut(c, z, deed.act.s, deed.act.k, deed.w);
      }
    }
    hide Do, SleepInv, CanDo, Next;
  }

  // ---------- every run ----------

  ghost function SleepRun<T>(c: Config<T>, deeds: seq<Deed<T>>): (z: Sleepy<T>)
    requires Sensible(c)
    ensures SleepInv(z)
  {
    if deeds == [] then
      StartInv(c);
      Start(c)
    else
      var z := SleepRun(c, deeds[..|deeds| - 1]);
      DoKeeps(c, z, deeds[|deeds| - 1]);
      Do(c, z, deeds[|deeds| - 1])
  }

  lemma StartInv<T>(c: Config<T>)
    requires Sensible(c)
    ensures SleepInv(Start(c))
  {
  }

  /** Whatever the sleeping threads do, the chain does what it could do without them: all that holds of its runs holds
      here. */
  lemma {:induction false} ChainFollows<T>(c: Config<T>, deeds: seq<Deed<T>>) returns (acts: seq<Act<T>>)
    requires Sensible(c)
    ensures SleepRun(c, deeds).st == Run(c, acts)
  {
    if deeds == [] {
      acts := [];
    } else {
      var z, deed := SleepRun(c, deeds[..|deeds| - 1]), deeds[|deeds| - 1];
      acts := ChainFollows(c, deeds[..|deeds| - 1]);
      DoKeeps(c, z, deed);
      if CanDo(z, deed) && deed.Go? && Can(z.st, deed.act) {
        assert (acts + [deed.act])[..|acts|] == acts;
        acts := acts + [deed.act];
      }
      hide Do, SleepInv, CanDo, Next, Can;
    }
  }

  // ---------- nobody sleeps for good ----------

  /** A thread that is not asleep makes a move in the chain. */
  ghost predicate MovesOn<T>(z: Sleepy<T>, deed: Deed<T>)
    requires Fitting(z)
  {
    CanDo(z, deed) && deed.Go? && ByThread(deed.act) && Can(z.st, deed.act)
  }

  lemma PickTarget(c: B.Cond) returns (w: nat)
    ensures B.Target(c, w)
  {
    if c.asleep == {} {
      w := 0;
    } else {
      w :| w in c.asleep;
    }
  }

  /** While some sleep at an end of a queue that does not block, others have been woken there. */
  lemma SomeWoken<T>(q: B.Queue<T>)
    requires B.Inv(q)
    ensures q.pushers.asleep != {} && !B.PushBlocked(q.core) ==> q.pushers.awake != {}
    ensures q.poppers.asleep != {} && !B.PopBlocked(q.core) ==> q.poppers.awake != {}
    ensures q.pushers.asleep !! q.pushers.awake && q.poppers.asleep !! q.poppers.awake
  {
  }

  /** If some thread's move is not blocked, then that thread or another one, awake, can make the same kind of move. */
  lemma SomeoneAwake<T>(z: Sleepy<T>, act: Act<T>) returns (deed: Deed<T>)
    requires SleepInv(z) && ByThread(act) && Can(z.st, act)
    ensures MovesOn(z, deed)
  {
    if act.Produce? {
      deed := PusherAwake(z, 0, act.k, act.value);
    } else if act.Put? && act.s < |z.queues| {
      deed := PusherAwake(z, act.s, act.k, z.st.stages[act.s].threads[act.k].x.value);
    } else if act.Take? {
      deed := PopperAwake(z, act.s, act.k);
    } else {
      deed := Go(act, 0);
    }
  }

  lemma PusherAwake<T>(z: Sleepy<T>, s: nat, k: nat, v: T) returns (deed: Deed<T>)
    requires SleepInv(z) && s < |z.queues| && !B.PushBlocked(z.queues[s].core)
    requires if s == 0 then At(z.st, 0, k, Working) else HoldsAt(z.st, s, k)
    ensures MovesOn(z, deed)
  {
    var b := z.queues[s];
    assert QueueInv(z, s);
    SomeWoken(b);
    var w := PickTarget(b.poppers);
    hide B.Inv, B.PushBlocked, B.Target;
    var j: nat := k;
    if k in b.pushers.asleep {
      j :| j in b.pushers.awake;
    }
    assert B.Waits(b.pushers, j) ==> Pushes(z, s, j);
    if s == 0 {
      deed := Go(Produce(j, if j in b.pushers.awake then z.wants[j] else v), w);
    } else {
      deed := Go(Put(s, j), w);
    }
  }

  lemma PopperAwake<T>(z: Sleepy<T>, s: nat, k: nat) returns (deed: Deed<T>)
    requires SleepInv(z) && 0 < s <= |z.queues| && !B.PopBlocked(z.queues[s - 1].core) && At(z.st, s, k, Working)
    ensures MovesOn(z, deed)
  {
    var b := z.queues[s - 1];
    assert QueueInv(z, s - 1);
    SomeWoken(b);
    var w := PickTarget(b.pushers);
    hide B.Inv, B.PopBlocked, B.Target;
    var j: nat := k;
    if k in b.poppers.asleep {
      j :| j in b.poppers.awake;
    }
    assert B.Waits(b.poppers, j) ==> At(z.st, s, j, Working);
    deed := Go(Take(s, j), w);
  }

  /** There is no deadlock among sleeping threads either: in every run, whatever was signalled to whom, either some
      thread that is not asleep makes a move in the chain, or all threads are gone and the finals were run once. */
  lemma {:induction false} NobodySleepsForGood<T(0,!new)>(c: Config<T>, deeds: seq<Deed<T>>)
    requires Sensible(c) && (forall q | 0 <= q < |c.caps| :: c.caps[q] > 0)
    ensures var z := SleepRun(c, deeds);
      || (AllDone(z.st) && z.st.finals == 1)
      || exists deed :: MovesOn(z, deed) && Do(c, z, deed).st == Next(c, z.st, deed.act)
  {
    var z := SleepRun(c, deeds);
    var acts := ChainFollows(c, deeds);
    NeverStuck(c, acts);
    hide Run, SleepRun, SleepInv, Next, Do;
    if !AllDone(z.st) {
      var act :| ByThread(act) && Can(z.st, act);
      var deed := SomeoneAwake(z, act);
      DoKeeps(c, z, deed);
      hide CanDo, Can;
      assert MovesOn(z, deed);
    }
  }
}
