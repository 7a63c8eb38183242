/** What a receive buffer in message mode can deliver: exactly the messages that leave one slot of the ring empty, as
    long as none before them is larger. */
module MessageProgress {
  import opened Packets
  import opened RcvBuffers
  import opened Messages
  import S = SndBuffers

  // ---------- the ring keeps its size ----------

  lemma RunOne(s: seq<Chunk>, size: nat, steps: seq<Step>, step: Step)
    requires size > 0
    ensures Run(s, size, steps + [step]) == Next(s, Run(s, size, steps), step)
  {
    hide Next;
    assert (steps + [step])[..|steps|] == steps;
  }

  lemma ReadSize(st: State, len: nat)
    requires Bounded(st.buf)
    ensures |AfterRead(st, len).buf.cells| == |st.buf.cells|
    ensures AfterRead(st, len).out == st.out
         || (|AfterRead(st, len).out| == |st.out| + 1 && st.out < AfterRead(st, len).out)
  {
    hide SkipBad, FindMsg, Marked, Payload, Cut;
  }

  lemma NextSize(s: seq<Chunk>, st: State, step: Step)
    ensures |Next(s, st, step).buf.cells| == |st.buf.cells| && st.out <= Next(s, st, step).out
  {
    if step.Read? && Can(s, st, step) {
      ReadSize(st, step.len);
    }
    hide AfterRead;
  }

  lemma {:induction false} RunSize(s: seq<Chunk>, size: nat, steps: seq<Step>)
    requires size > 0
    ensures |Run(s, size, steps).buf.cells| == size
  {
    if steps != [] {
      RunSize(s, size, steps[..|steps| - 1]);
      NextSize(s, Run(s, size, steps[..|steps| - 1]), steps[|steps| - 1]);
      hide Next;
    }
  }

  // ---------- no reading is larger than the ring without one slot ----------

  ghost predicate Fits(out: seq<Reading>, size: nat) {
    forall a | 0 <= a < |out| :: out[a].t - out[a].h + 1 <= size - 1
  }

  lemma ReadFits(st: State, len: nat)
    requires Bounded(st.buf) && Fits(st.out, |st.buf.cells|)
    ensures Fits(AfterRead(st, len).out, |st.buf.cells|)
  {
    ScanUnread(st.buf);
    ReadSize(st, len);
    hide ScanMsg, TakeMsg, ReadMsg;
  }

  lemma NextFits(s: seq<Chunk>, st: State, step: Step)
    requires Fits(st.out, |st.buf.cells|)
    ensures Fits(Next(s, st, step).out, |st.buf.cells|)
  {
    if step.Read? && Can(s, st, step) {
      ReadFits(st, step.len);
    }
    hide AfterRead;
  }

  /** Over every run, a message read has at most as many packets as the ring has slots without one. */
  lemma {:induction false} ReadingsFit(s: seq<Chunk>, size: nat, steps: seq<Step>)
    requires size > 0
    ensures Fits(Run(s, size, steps).out, size)
  {
    if steps != [] {
      ReadingsFit(s, size, steps[..|steps| - 1]);
      RunSize(s, size, steps[..|steps| - 1]);
      NextFits(s, Run(s, size, steps[..|steps| - 1]), steps[|steps| - 1]);
      hide Next;
    }
  }

  // ---------- filling and acknowledging ----------

  ghost predicate HeldUpTo(st: State, k: nat) {
    k <= |st.buf.cells| && forall i | 0 <= i < k :: st.buf.cells[i].Held?
  }

  /** An empty slot can be filled. */
  lemma FillOne(s: seq<Chunk>, st: State, k: nat)
    requires Inv(s, st) && k + 1 < |st.buf.cells| && st.base + k < |s|
    requires HeldUpTo(st, k) && st.buf.cells[k].Empty?
    ensures Can(s, st, Arrive(st.base + k))
    ensures var now := Next(s, st, Arrive(st.base + k));
      now.base == st.base && now.out == st.out && now.buf.acked == st.buf.acked && HeldUpTo(now, k + 1)
  {
    AckedHeld(s, st);
    hide Inv;
  }

  /** The first k slots can be filled. */
  lemma {:induction false} FillUp(s: seq<Chunk>, size: nat, steps: seq<Step>, k: nat) returns (more: seq<Step>)
    requires Framed(s) && 0 < size && k <= size - 1 && Run(s, size, steps).base + k <= |s|
    ensures steps <= more
    ensures var st, now := Run(s, size, steps), Run(s, size, more);
      now.base == st.base && now.out == st.out && now.buf.acked == st.buf.acked && HeldUpTo(now, k)
  {
    more := steps;
    if k > 0 {
      more := FillUp(s, size, steps, k - 1);
      RunInv(s, size, more);
      RunSize(s, size, more);
      hide Run, Inv, Framed, Next;
      var now := Run(s, size, more);
      if now.buf.cells[k - 1].Empty? {
        FillOne(s, now, k - 1);
        RunOne(s, size, more, Arrive(now.base + k - 1));
        more := more + [Arrive(now.base + k - 1)];
      }
    }
  }

  lemma AckedHeld(s: seq<Chunk>, st: State)
    requires Inv(s, st)
    ensures Bounded(st.buf) && HeldUpTo(st, st.buf.acked)
    ensures forall j | st.base <= j && InRead(st.out, j) ::
      j - st.base < |st.buf.cells| && st.buf.cells[j - st.base].Held?
    ensures forall j | 0 <= j < st.base :: InRead(st.out, j)
  {
    hide Readings, InRead;
  }

  /** What is held can be acknowledged. */
  lemma AckUpTo(s: seq<Chunk>, size: nat, steps: seq<Step>, k: nat) returns (more: seq<Step>)
    requires size > 0 && HeldUpTo(Run(s, size, steps), k)
    ensures steps <= more
    ensures var st, now := Run(s, size, steps), Run(s, size, more);
      now.base == st.base && now.out == st.out && now.buf.acked == if k > st.buf.acked then k else st.buf.acked
  {
    var st := Run(s, size, steps);
    more := steps;
    if k > st.buf.acked {
      more := steps + [Acknowledge(k - st.buf.acked)];
      RunOne(s, size, steps, Acknowledge(k - st.buf.acked));
      hide Run;
    }
  }

  // ---------- the first unread message ----------

  /** Packet u is unread and nothing before it is. */
  ghost predicate FirstUnread(s: seq<Chunk>, out: seq<Reading>, u: int) {
    0 <= u < |s| && !InRead(out, u) && forall j | 0 <= j < u :: InRead(out, j)
  }

  lemma {:induction false} FindUnread(s: seq<Chunk>, out: seq<Reading>, j: nat) returns (u: nat)
    requires j < |s| && !InRead(out, j)
    ensures u <= j && FirstUnread(s, out, u)
  {
    if k: nat :| k < j && !InRead(out, k) {
      u := FindUnread(s, out, k);
    } else {
      u := j;
    }
  }

  lemma {:induction false} NextFinal(s: seq<Chunk>, u: nat, j: nat) returns (t: nat)
    requires u <= j < |s| && NoFinal(s, u, j) && Final(s, |s| - 1)
    ensures u <= t < |s| && Final(s, t) && NoFinal(s, u, t)
    decreases |s| - j
  {
    hide IsFirst, IsLast;
    if Final(s, j) {
      t := j;
    } else {
      t := NextFinal(s, u, j + 1);
    }
  }

  /** The first unread packet begins a message. */
  lemma UnreadBegins(s: seq<Chunk>, st: State, u: nat) returns (t: nat)
    requires Framed(s) && Inv(s, st) && FirstUnread(s, st.out, u)
    ensures IsMessage(s, u, t)
  {
    hide IsFirst, IsLast, OrderFlag, Flatten, Cut, Slots;
    if u > 0 {
      assert InRead(st.out, u - 1);
      var a :| 0 <= a < |st.out| && st.out[a].h <= u - 1 <= st.out[a].t;
      assert IsMessage(s, st.out[a].h, st.out[a].t);
      assert !(st.out[a].h <= u <= st.out[a].t);
      assert Final(s, u - 1) <==> First(s, u);
    }
    t := NextFinal(s, u, u);
    NoBeginning(s, u, t);
  }

  lemma ReadOf(s: seq<Chunk>, st: State, h: nat, t: nat, j: nat)
    requires Framed(s) && Inv(s, st) && IsMessage(s, h, t) && h <= j <= t && InRead(st.out, j)
    ensures exists a :: 0 <= a < |st.out| && st.out[a].h == h
  {
    hide IsFirst, IsLast, OrderFlag, Slots, Flatten, Cut, NoFirst;
    var a :| 0 <= a < |st.out| && st.out[a].h <= j <= st.out[a].t;
    SameMessage(s, h, t, st.out[a].h, st.out[a].t, j);
  }

  // ---------- how much is left ----------

  ghost function Left(s: seq<Chunk>, out: seq<Reading>): set<int> {
    set j | 0 <= j < |s| && !InRead(out, j)
  }

  lemma FewerLeft(s: seq<Chunk>, st: State, now: State)
    requires Framed(s) && Inv(s, now) && |now.out| == |st.out| + 1 && st.out < now.out
    ensures |Left(s, now.out)| < |Left(s, st.out)|
  {
    hide IsFirst, IsLast, OrderFlag, Flatten, Cut, Slots, NoFirst;
    var n := |st.out|;
    var r := now.out[n];
    assert now.out == st.out + [r];
    forall j
      ensures InRead(now.out, j) <==> InRead(st.out, j) || r.h <= j <= r.t
    {
      InReadMore(st.out, r, j);
    }
    assert IsMessage(s, r.h, r.t);
    if InRead(st.out, r.h) {
      var a :| 0 <= a < |st.out| && st.out[a].h <= r.h <= st.out[a].t;
      assert now.out[a] == st.out[a];
      SameMessage(s, r.h, r.t, now.out[a].h, now.out[a].t, r.h);
      assert false;
    }
    Shrinks(Left(s, now.out), Left(s, st.out), r.h);
  }

  lemma Shrinks(a: set<int>, b: set<int>, x: int)
    requires a <= b && x in b && x !in a
    ensures |a| < |b|
  {
    assert b == a + (b - a) && x in b - a;
  }

  // ---------- one read ----------

  /** A read takes a message, or gives up what was read in front of the first unread packet. */
  lemma ReadOutcome(s: seq<Chunk>, st: State)
    requires Framed(s) && Inv(s, st)
    ensures Inv(s, AfterRead(st, 0)) && st.base <= AfterRead(st, 0).base
    ensures var now := AfterRead(st, 0);
      || (|now.out| == |st.out| + 1 && st.out < now.out)
      || (now.out == st.out && now.base + now.buf.acked == st.base + st.buf.acked
          && (now.buf.acked == 0 || !InRead(st.out, now.base)))
  {
    NothingThere(s, st, 0);
    ReadKeeps(s, st, 0);
    ReadSize(st, 0);
    hide Framed, AfterRead, FindMsg, SkipBad, GoodStart, TakenState, InRead;
    if st.buf.acked != 0 || st.buf.maxPos != 0 {
      SkipKeeps(s, st);
      AfterReadIs(st, 0);
      var now := Skipped(st);
      BaseGrows(st);
      if FindMsg(now.buf, 0, -1).NotFound? && now.buf.acked != 0 {
        GoodIsUnread(s, now);
      }
    }
  }

  lemma BaseGrows(st: State)
    requires Bounded(st.buf) && (st.buf.acked != 0 || st.buf.maxPos != 0)
    ensures Skipped(st).base >= st.base && Skipped(st).out == st.out
    ensures Skipped(st).base + Skipped(st).buf.acked == st.base + st.buf.acked
    ensures AfterRead(st, 0).base >= st.base
  {
    hide SkipBad, FindMsg, Marked, Payload, Cut;
  }

  lemma GoodIsUnread(s: seq<Chunk>, st: State)
    requires Inv(s, st) && 0 < st.buf.acked <= |st.buf.cells| && GoodStart(st.buf)
    ensures !InRead(st.out, st.base)
  {
    hide IsFirst, IsLast, OrderFlag, InRead, Readings, Progress, WholeAhead;
    assert st.buf.cells[0].Held?;
  }

  // ---------- what can be read ----------

  /** Every message up to packet t that is still to be read leaves a slot of the ring empty. */
  ghost predicate SmallUpTo(s: seq<Chunk>, out: seq<Reading>, t: int, size: nat) {
    forall h', t' | IsMessage(s, h', t') && t' <= t && !InRead(out, h') :: t' - h' + 1 <= size - 1
  }

  lemma InReadStays(out: seq<Reading>, now: seq<Reading>, j: int)
    requires out <= now && InRead(out, j)
    ensures InRead(now, j)
  {
    var a :| 0 <= a < |out| && out[a].h <= j <= out[a].t;
    assert now[a] == out[a];
  }

  lemma SmallStays(s: seq<Chunk>, out: seq<Reading>, now: seq<Reading>, t: int, size: nat)
    requires SmallUpTo(s, out, t, size) && out <= now
    ensures SmallUpTo(s, now, t, size)
  {
    hide IsMessage, InRead;
    forall h', t' | IsMessage(s, h', t') && t' <= t && !InRead(now, h')
      ensures t' - h' + 1 <= size - 1
    {
      if InRead(out, h') {
        InReadStays(out, now, h');
      }
    }
  }

  lemma Earlier(s: seq<Chunk>, u: int, tu: int, h: int, t: int)
    requires IsMessage(s, u, tu) && IsMessage(s, h, t) && u <= h && Framed(s)
    ensures tu <= t
  {
    hide IsFirst, IsLast, OrderFlag;
    if u == h {
      SameMessage(s, u, tu, h, t, h);
    }
  }

  lemma BaseBounds(s: seq<Chunk>, st: State, u: nat)
    requires Inv(s, st) && FirstUnread(s, st.out, u)
    ensures st.base <= u && st.base + st.buf.acked <= |s|
    ensures HeldUpTo(st, u - st.base)
  {
    hide Readings, InRead, IsMessage;
    AckedHeld(s, st);
    if st.buf.acked > 0 {
      assert st.buf.cells[st.buf.acked - 1].Held?;
    }
    forall i | 0 <= i < u - st.base
      ensures i < |st.buf.cells| && st.buf.cells[i].Held?
    {
      assert InRead(st.out, st.base + i);
    }
    if st.base < u {
      assert InRead(st.out, u - 1);
    }
  }

  /** What comes before the first unread packet is acknowledged, or else its message. */
  ghost predicate Prepared(st: State, u: int, tu: int) {
    if st.base < u then u <= st.base + st.buf.acked else tu < st.base + st.buf.acked
  }

  lemma {:induction false} Prepare(s: seq<Chunk>, size: nat, steps: seq<Step>, t: int, u: nat, tu: nat)
    returns (more: seq<Step>)
    requires Framed(s) && size > 0 && SmallUpTo(s, Run(s, size, steps).out, t, size)
    requires FirstUnread(s, Run(s, size, steps).out, u) && IsMessage(s, u, tu) && tu <= t
    ensures steps <= more && Run(s, size, more).out == Run(s, size, steps).out
    ensures Run(s, size, more).base == Run(s, size, steps).base && Prepared(Run(s, size, more), u, tu)
  {
    var st := Run(s, size, steps);
    RunInv(s, size, steps);
    BaseBounds(s, st, u);
    MessageBounds(s, u, tu);
    hide Run, Inv, Framed, IsMessage;
    if st.base < u {
      more := AckUpTo(s, size, steps, u - st.base);
    } else {
      SmallGives(s, st.out, t, size, u, tu);
      hide SmallUpTo, FirstUnread;
      more := FillUp(s, size, steps, tu + 1 - u);
      more := AckUpTo(s, size, more, tu + 1 - u);
    }
  }

  /** Then a read takes a message or moves the ring on. */
  lemma {:induction false} ReadOnce(s: seq<Chunk>, size: nat, steps: seq<Step>, u: nat, tu: nat)
    returns (more: seq<Step>)
    requires Framed(s) && size > 0 && FirstUnread(s, Run(s, size, steps).out, u) && IsMessage(s, u, tu)
    requires Prepared(Run(s, size, steps), u, tu)
    ensures steps <= more && Run(s, size, steps).out <= Run(s, size, more).out
    ensures var st, now := Run(s, size, steps), Run(s, size, more);
      |Left(s, now.out)| < |Left(s, st.out)|
      || (now.out == st.out && st.base < now.base <= |s|)
  {
    var st := Run(s, size, steps);
    RunInv(s, size, steps);
    NothingThere(s, st, 0);
    RunOne(s, size, steps, Read(0));
    ReadIsPossible(s, st, 0);
    more := steps + [Read(0)];
    hide Run, Inv, Framed, IsMessage, Left, AfterRead;
    ReadOutcome(s, st);
    var now := Run(s, size, more);
    if |now.out| > |st.out| {
      FewerLeft(s, st, now);
    } else {
      BaseBounds(s, now, u);
      if st.base == u {
        LeftBehind(s, st, 0, u, tu);
        NotAReading(st.out, u);
      }
    }
  }

  lemma NotAReading(out: seq<Reading>, u: int)
    requires !InRead(out, u) && forall a | 0 <= a < |out| :: out[a].h <= out[a].t
    ensures forall a | 0 <= a < |out| :: out[a].h != u
  {
  }

  /** Any message whose unread predecessors are small enough, and that is itself, can be read. */
  lemma {:induction false} CanRead(s: seq<Chunk>, size: nat, steps: seq<Step>, h: nat, t: nat) returns (more: seq<Step>)
    requires Framed(s) && size > 0 && IsMessage(s, h, t) && SmallUpTo(s, Run(s, size, steps).out, t, size)
    ensures steps <= more
    ensures exists a :: 0 <= a < |Run(s, size, more).out| && Run(s, size, more).out[a].h == h
    decreases |Left(s, Run(s, size, steps).out)|, |s| - Run(s, size, steps).base
  {
    var st := Run(s, size, steps);
    RunInv(s, size, steps);
    MessageBounds(s, h, t);
    hide Run, Inv, Framed, IsMessage, SmallUpTo, Left, InRead, FirstUnread, Prepared;
    if InRead(st.out, h) {
      ReadOf(s, st, h, t, h);
      return steps;
    }
    var u := FindUnread(s, st.out, h);
    var tu := UnreadBegins(s, st, u);
    Earlier(s, u, tu, h, t);
    BaseBounds(s, st, u);
    more := Prepare(s, size, steps, t, u, tu);
    more := ReadOnce(s, size, more, u, tu);
    SmallStays(s, st.out, Run(s, size, more).out, t, size);
    more := CanRead(s, size, more, h, t);
  }

  lemma SmallGives(s: seq<Chunk>, out: seq<Reading>, t: int, size: nat, u: int, tu: int)
    requires SmallUpTo(s, out, t, size) && IsMessage(s, u, tu) && tu <= t && !InRead(out, u)
    ensures tu - u + 1 <= size - 1
  {
    hide IsMessage, InRead;
  }

  // ---------- in terms of the calls ----------

  /** How many packets a call is cut into. */
  ghost function PacketCount(calls: seq<Call>, mss: int, i: nat): nat
    requires mss > 0 && i < |calls|
  {
    |S.Chop(calls[i].data, mss, calls[i].msgNo, calls[i].order, true)|
  }

  lemma MessagePackets(calls: seq<Call>, mss: int, i: nat, h: nat, t: nat)
    requires mss > 0 && OfCall(calls, mss, i, h, t)
    ensures t - h + 1 == PacketCount(calls, mss, i)
  {
    hide OrderFlag;
    SentLast(calls[..i + 1], mss);
    assert calls[..i + 1][..i] == calls[..i];
  }

  lemma SmallCalls(calls: seq<Call>, mss: int, size: nat, out: seq<Reading>, i: nat)
    requires mss > 0 && Numbered(calls) && i < |calls| && calls[i].data != []
    requires forall k | 0 <= k <= i :: PacketCount(calls, mss, k) <= size - 1
    ensures SmallUpTo(Sent(calls, mss), out, |Sent(calls[..i + 1], mss)| - 1, size)
  {
    var s := Sent(calls, mss);
    var t := |Sent(calls[..i + 1], mss)| - 1;
    hide IsMessage, PacketCount, InRead, Numbered;
    forall h', t' | IsMessage(s, h', t') && t' <= t && !InRead(out, h')
      ensures t' - h' + 1 <= size - 1
    {
      MessageBounds(s, h', t');
      var k := MessageIsCall(calls, mss, h', t');
      MessagePackets(calls, mss, k, h', t');
      if k > i {
        SentGrows(calls, mss, i + 1, k);
        assert false;
      }
    }
  }

  lemma MessageBounds(s: seq<Chunk>, h: int, t: int)
    requires IsMessage(s, h, t)
    ensures 0 <= h <= t < |s|
  {
  }

  /** Some continuation of the steps reads a message beginning at packet h. */
  ghost predicate CanBeRead(s: seq<Chunk>, size: nat, steps: seq<Step>, h: nat)
    requires size > 0
  {
    exists more: seq<Step>, a: nat :: a < |Run(s, size, more).out| && steps <= more && Run(s, size, more).out[a].h == h
  }

  lemma SmallIsRead(calls: seq<Call>, mss: int, size: nat, steps: seq<Step>, i: nat, h: nat, t: nat)
    requires mss > 0 && size > 0 && Numbered(calls) && i < |calls| && calls[i].data != []
    requires forall k | 0 <= k <= i :: PacketCount(calls, mss, k) <= size - 1
    requires IsMessage(Sent(calls, mss), h, t) && t == |Sent(calls[..i + 1], mss)| - 1
    ensures CanBeRead(Sent(calls, mss), size, steps, h)
  {
    SentFramed(calls, mss);
    hide Run, IsMessage, Framed, Numbered, SmallUpTo, Sent, PacketCount;
    var s := Sent(calls, mss);
    SmallCalls(calls, mss, size, Run(s, size, steps).out, i);
    var more := CanRead(s, size, steps, h, t);
  }

  /** When the messages sent before it leave a slot of the ring empty, a message can be read after some continuation of
      whatever has happened if and only if it leaves one empty itself. */
  lemma {:induction false} ReadableExactly(calls: seq<Call>, mss: int, size: nat, steps: seq<Step>, i: nat)
    requires mss > 0 && size > 0 && Numbered(calls) && i < |calls| && calls[i].data != []
    requires forall k | 0 <= k < i :: PacketCount(calls, mss, k) <= size - 1
    ensures PacketCount(calls, mss, i) <= size - 1
       <==> CanBeRead(Sent(calls, mss), size, steps, |Sent(calls[..i], mss)|)
  {
    var h, t := |Sent(calls[..i], mss)|, |Sent(calls[..i + 1], mss)| - 1;
    CallIsMessage(calls, mss, i);
    PacketsAre(calls, mss, i);
    SentFramed(calls, mss);
    hide IsMessage, PacketCount, Sent, Framed, Numbered, CanBeRead, OfCall;
    if PacketCount(calls, mss, i) <= size - 1 {
      SmallIsRead(calls, mss, size, steps, i, h, t);
    } else {
      NeverRead(Sent(calls, mss), size, steps, h, t);
    }
  }

  lemma NeverRead(s: seq<Chunk>, size: nat, steps: seq<Step>, h: nat, t: int)
    requires Framed(s) && size > 0 && IsMessage(s, h, t) && t - h + 1 > size - 1
    ensures !CanBeRead(s, size, steps, h)
  {
    hide Run, IsMessage, Framed;
    forall more: seq<Step>, a: nat | a < |Run(s, size, more).out|
      ensures Run(s, size, more).out[a].h != h
    {
      TooLarge(s, size, more, a, h, t);
    }
  }

  lemma PacketsAre(calls: seq<Call>, mss: int, i: nat)
    requires mss > 0 && i < |calls|
    ensures PacketCount(calls, mss, i) == |Sent(calls[..i + 1], mss)| - |Sent(calls[..i], mss)|
  {
    SentLast(calls[..i + 1], mss);
    assert calls[..i + 1][..i] == calls[..i];
  }

  lemma TooLarge(s: seq<Chunk>, size: nat, more: seq<Step>, a: nat, h: int, t: int)
    requires Framed(s) && size > 0 && IsMessage(s, h, t) && t - h + 1 > size - 1 && a < |Run(s, size, more).out|
    ensures Run(s, size, more).out[a].h != h
  {
    RunInv(s, size, more);
    ReadingsFit(s, size, more);
    var r := Run(s, size, more).out[a];
    hide Run, IsFirst, IsLast, OrderFlag, Flatten, Cut, Slots, Progress;
    assert IsMessage(s, r.h, r.t);
    if r.h == h {
      SameMessage(s, h, t, r.h, r.t, h);
    }
  }
}
