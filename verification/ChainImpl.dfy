/** The chain object: the shared memory of the threads, changed in place by the code that starts the chain, by the
    end of every thread and by whoever stops the chain. */
module ChainImpls {
  import opened Chains
  import opened QueueLaws
  import B = BQueues

  /** The shared memory as all the queues are disabled bluntly. */
  function AllDisabled<T>(queues: seq<B.Core<Item<T>>>): seq<B.Core<Item<T>>> {
    seq(|queues|, q requires 0 <= q < |queues| => B.DisableCore(queues[q]))
  }

  /** What the end of a thread of step s does to the shared memory, when nobody comes in between, and whether the
      finals run. */
  function ThreadEnd<T>(sh: Shared<T>, s: nat): (Shared<T>, bool)
    requires s < |sh.nthread|
  {
    var (off, last) := SignOff(sh, s);
    var shut := if last then ShutInput(ShutOutput(off, s), s) else off;
    var (down, lastOfAll) := CountDown(shut);
    if lastOfAll && RunsFinals(down) then (down.(finalized := true), true) else (down, false)
  }

  /** The queue behind step s runs dry, the one before it is dead, and the others are as they were. */
  ghost predicate ShutAround<T>(was: seq<B.Core<Item<T>>>, now: seq<B.Core<Item<T>>>, s: nat) {
    |now| == |was| && forall q | 0 <= q < |was| ::
      if q == s then RunsDry(was[q], now[q]) else if q == s - 1 then IsDead(was[q], now[q]) else now[q] == was[q]
  }

  function Less(n: nat): nat {
    if n == 0 then 0 else n - 1
  }

  class ChainImpl<T> {

    var closed: bool
    var running: bool
    var cancelled: bool
    var finalized: bool
    var nthreads: nat
    var nthread: seq<nat>
    var queues: seq<B.Core<Item<T>>>
    var finalsRun: nat

    ghost predicate Valid()
      reads this
    {
      |nthread| == |queues| + 1 && (running ==> closed)
    }

    ghost function View(): Shared<T>
      reads this
    {
      Shared(queues, nthread, nthreads, running, cancelled, finalized)
    }

    /** Starting enables all queues and counts the threads of all steps, from the last one backwards; it is refused
        unless the chain is closed and not running. */
    method Start(sizes: seq<nat>) returns (started: bool)
      requires Valid() && |sizes| == |nthread|
      modifies this
      ensures Valid() && started == old(closed && !running) && closed == old(closed) && finalsRun == old(finalsRun)
      ensures !started ==> View() == old(View())
      ensures started ==> |queues| == |old(queues)| && forall q | 0 <= q < |queues| ::
        queues[q] == B.ResizeEnableCore(old(queues)[q], 0) && Reopened(old(queues)[q], queues[q], 0)
      ensures started ==>
        View() == Shared(queues, sizes, Total(sizes, Itself), true, false, false)
    {
      if !closed || running {
        return false;
      }
      nthreads := 0;
      EnableAll();
      CreateThreads(sizes);
      running := true;
      cancelled := false;
      finalized := false;
      return true;
    }

    /** Counts the threads in, from the last step backwards. */
    method CreateThreads(sizes: seq<nat>)
      requires |nthread| == |sizes| && nthreads == 0
      modifies this`nthread, this`nthreads
      ensures nthread == sizes && nthreads == Total(sizes, Itself)
    {
      var s := |sizes|;
      assert Total(sizes[s..], Itself) == 0;
      while s > 0
        invariant 0 <= s <= |sizes| == |nthread|
        invariant nthread[s..] == sizes[s..] && nthreads == Total(sizes[s..], Itself)
      {
        s := s - 1;
        nthread := nthread[s := sizes[s]];
        TotalFront(sizes[s..]);
        nthreads := nthreads + sizes[s];
      }
      assert sizes[0..] == sizes && nthread[0..] == nthread;
    }

    method EnableAll()
      requires Valid()
      modifies this`queues
      ensures |queues| == |old(queues)|
      ensures forall q | 0 <= q < |queues| ::
        queues[q] == B.ResizeEnableCore(old(queues)[q], 0) && Reopened(old(queues)[q], queues[q], 0)
    {
      var q := |queues|;
      while q > 0
        invariant 0 <= q <= |queues| == |old(queues)|
        invariant forall j | 0 <= j < q :: queues[j] == old(queues)[j]
        invariant forall j | q <= j < |queues| :: queues[j] == B.ResizeEnableCore(old(queues)[j], 0)
      {
        q := q - 1;
        queues := queues[q := B.ResizeEnableCore(queues[q], 0)];
      }
    }

    /** The end of a thread of step s, after the step's function has returned. */
    method EndThread(s: nat)
      requires Valid() && s < |nthread|
      modifies this
      ensures Valid() && closed == old(closed)
      ensures View() == ThreadEnd(old(View()), s).0
      ensures finalsRun == old(finalsRun) + if ThreadEnd(old(View()), s).1 then 1 else 0
      ensures nthread == old(nthread)[s := Less(old(nthread)[s])] && nthreads == Less(old(nthreads))
      ensures if nthread[s] == 0 then ShutAround(old(queues), queues, s) else queues == old(queues)
      ensures running == old(running) && cancelled == old(cancelled)
      ensures finalized == (old(finalized) || (nthreads == 0 && running))
      ensures finalsRun == old(finalsRun) + if nthreads == 0 && running && !old(finalized) then 1 else 0
    {
      hide ShutInput, ShutOutput, ShutAround;
      var last := LeaveStep(s);
      if last {
        ShutQueues(s);
      }
      hide SignOff, Less;
      if nthreads != 0 {
        nthreads := nthreads - 1;
      }
      if nthreads == 0 {
        DoFinals();
      }
    }

    method LeaveStep(s: nat) returns (last: bool)
      requires s < |nthread|
      modifies this`nthread
      ensures (View(), last) == SignOff(old(View()), s)
      ensures nthread == old(nthread)[s := Less(old(nthread)[s])] && last == (nthread[s] == 0)
    {
      if nthread[s] != 0 {
        nthread := nthread[s := nthread[s] - 1];
      }
      assert old(nthread[s]) == 0 ==> nthread[s := 0] == nthread;
      return nthread[s] == 0;
    }

    method ShutQueues(s: nat)
      modifies this`queues
      ensures View() == ShutInput(ShutOutput(old(View()), s), s) && |queues| == |old(queues)|
      ensures ShutAround(old(queues), queues, s)
    {
      if s < |queues| {
        queues := queues[s := B.DelayedDisableCore(queues[s])];
      }
      if 0 < s <= |queues| {
        queues := queues[s - 1 := B.DisableCore(queues[s - 1])];
      }
    }

    method DoFinals()
      requires Valid()
      modifies this`finalized, this`finalsRun
      ensures finalized == (old(finalized) || running)
      ensures finalsRun == old(finalsRun) + if running && !old(finalized) then 1 else 0
    {
      if !running || finalized {
        return;
      }
      finalsRun := finalsRun + 1;
      finalized := true;
    }

    /** Lets the chain run dry. */
    method DelayedDisable()
      requires Valid() && queues != []
      modifies this
      ensures Valid() && View() == GentleStop(old(View()), false)
      ensures closed == old(closed) && finalsRun == old(finalsRun) && View() == old(View()).(queues := queues)
      ensures if old(running && !cancelled) then ShutAround(old(queues), queues, 0) else queues == old(queues)
    {
      if !running || !closed || cancelled {
        return;
      }
      queues := queues[0 := B.DelayedDisableCore(queues[0])];
    }

    /** Stops the chain, gently by its first queue or bluntly by all of them. */
    method Stop(be_gentle: bool)
      requires Valid() && queues != []
      modifies this
      ensures Valid() && closed == old(closed) && finalsRun == old(finalsRun)
      ensures View() == if !old(running) || old(cancelled) then old(View())
                        else if be_gentle then GentleStop(old(View()), true)
                        else old(View()).(queues := AllDisabled(old(queues)), cancelled := true)
      ensures cancelled == (old(cancelled) || running) && running == old(running) && finalized == old(finalized)
      ensures nthreads == old(nthreads) && nthread == old(nthread)
      ensures if !running || old(cancelled) then queues == old(queues)
              else if be_gentle then ShutAround(old(queues), queues, 0)
              else |queues| == |old(queues)| && forall q | 0 <= q < |queues| :: IsDead(old(queues)[q], queues[q])
    {
      if !running || !closed || cancelled {
        return;
      }
      if be_gentle {
        queues := queues[0 := B.DelayedDisableCore(queues[0])];
      } else {
        var q := 0;
        while q < |queues|
          invariant 0 <= q <= |queues| == |old(queues)|
          invariant forall j | 0 <= j < q :: queues[j] == B.DisableCore(old(queues)[j])
          invariant forall j | q <= j < |queues| :: queues[j] == old(queues)[j]
          invariant View() == old(View()).(queues := queues) && closed == old(closed) && finalsRun == old(finalsRun)
        {
          queues := queues[q := B.DisableCore(queues[q])];
          q := q + 1;
        }
        assert queues == AllDisabled(old(queues));
      }
      cancelled := true;
    }
  }

  lemma {:induction false} TotalFront(xs: seq<nat>)
    requires xs != []
    ensures Total(xs, Itself) == xs[0] + Total(xs[1..], Itself)
  {
    var n := |xs| - 1;
    if n > 0 {
      TotalFront(xs[..n]);
      assert xs[..n][1..] == xs[1..][..n - 1];
    }
  }

  /** A chain object just started is the initial state of the runs. */
  lemma StartIsInit<T>(c: Config<T>, was: seq<B.Core<Item<T>>>, queues: seq<B.Core<Item<T>>>)
    requires Sensible(c) && |was| == |queues| == |c.caps|
    requires forall q | 0 <= q < |was| :: was[q].capacity == c.caps[q]
    requires forall q | 0 <= q < |queues| :: queues[q] == B.ResizeEnableCore(was[q], 0)
    ensures Shared(queues, c.sizes, Total(c.sizes, Itself), true, false, false) == Init(c).shared
  {
    assert queues == Init(c).shared.queues;
  }

  /** The end of a thread that nobody interrupts is the run of its acts from leaving to being done. */
  lemma EndIsFourActs<T>(c: Config<T>, st: State<T>, s: nat, k: nat)
    requires Shaped(st) && At(st, s, k, Leaving)
    ensures var (sh, finals) := ThreadEnd(st.shared, s);
      var left := Next(c, st, Leave(s, k));
      var shut := if At(left, s, k, Last) then Next(c, Next(c, left, CloseOutput(s, k)), CloseInput(s, k)) else left;
      var counted := Next(c, shut, Count(s, k));
      var done := if At(counted, s, k, Finishing) then Next(c, counted, Finals(s, k)) else counted;
      done.shared == sh && done.finals == st.finals + (if finals then 1 else 0) && At(done, s, k, Done)
  {
    var left := Next(c, st, Leave(s, k));
    LeaveGives(c, st, s, k);
    var shut := if At(left, s, k, Last) then Next(c, Next(c, left, CloseOutput(s, k)), CloseInput(s, k)) else left;
    if At(left, s, k, Last) {
      CloseGives(c, left, s, k);
    }
    CountGives(c, shut, s, k);
    var counted := Next(c, shut, Count(s, k));
    if At(counted, s, k, Finishing) {
      FinalsGives(c, counted, s, k);
    }
    hide Next, SignOff, ShutInput, ShutOutput;
  }

  lemma LeaveGives<T>(c: Config<T>, st: State<T>, s: nat, k: nat)
    requires Shaped(st) && At(st, s, k, Leaving)
    ensures var next := Next(c, st, Leave(s, k)); var (sh, last) := SignOff(st.shared, s);
      next.shared == sh && next.finals == st.finals && At(next, s, k, if last then Last else Counting)
  {
  }

  lemma CloseGives<T>(c: Config<T>, st: State<T>, s: nat, k: nat)
    requires Shaped(st) && At(st, s, k, Last)
    ensures var next := Next(c, Next(c, st, CloseOutput(s, k)), CloseInput(s, k));
      next.shared == ShutInput(ShutOutput(st.shared, s), s) && next.finals == st.finals && At(next, s, k, Counting)
  {
  }

  lemma CountGives<T>(c: Config<T>, st: State<T>, s: nat, k: nat)
    requires Shaped(st) && At(st, s, k, Counting)
    ensures var next := Next(c, st, Count(s, k)); var (sh, last) := CountDown(st.shared);
      next.shared == sh && next.finals == st.finals && At(next, s, k, if last then Finishing else Done)
  {
  }

  lemma FinalsGives<T>(c: Config<T>, st: State<T>, s: nat, k: nat)
    requires Shaped(st) && At(st, s, k, Finishing)
    ensures var next := Next(c, st, Finals(s, k));
      && next.shared == (if RunsFinals(st.shared) then st.shared.(finalized := true) else st.shared)
      && next.finals == st.finals + (if RunsFinals(st.shared) then 1 else 0) && At(next, s, k, Done)
  {
  }
}
