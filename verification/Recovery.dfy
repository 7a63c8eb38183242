/** When a connection can still deliver everything, although every packet under way is lost: exactly when the
    acknowledgements that open the window again still look newer than the one confirmed, or are not needed. */
module Recovery {
  import opened Basics
  import opened Packets
  import opened Intervals
  import opened RcvBuffers
  import opened SeqNo
  import opened Protocol
  import opened SndBuffers

  /** The negotiated window fits the sequence space twice below the comparison threshold. */
  ghost predicate InRange(p: Params) {
    Sensible(p) && 2 * p.window < SEQ_TH
  }

  // ---------- how far the confirmed acknowledgement can lag behind ----------

  /** The largest distance at which a number can still look newer. */
  const LAG := MODULUS - SEQ_TH

  ghost predicate SpanInv(p: Params, s: Sys) {
    && s.snd.lastAck + s.snd.window <= s.rcv.lastAckAck + LAG + p.window
    && s.snd.curr + 1 <= s.rcv.lastAckAck + LAG + p.window
    && forall ack, w | FullAck(ack, w) in s.net :: ack <= s.rcv.lastAckAck + LAG
  }

  lemma SpanNext(p: Params, s: Sys, step: Step)
    requires InRange(p) && Inv(p, s) && SpanInv(p, s)
    ensures SpanInv(p, Next(p, s, step))
  {
    match step
    case Acknowledge(lite, due) => SpanAcknowledge(p, s, lite, due);
    case Deliver(pkt, answer) => if pkt in s.net && Young(s.snd, pkt) { SpanDeliver(p, s, pkt, answer); }
    case _ => hide Inv, Least, Range, Chop;
  }

  lemma SpanAcknowledge(p: Params, s: Sys, lite: bool, due: bool)
    requires InRange(p) && Inv(p, s) && SpanInv(p, s)
    ensures SpanInv(p, Next(p, s, Acknowledge(lite, due)))
  {
    BelowFirstMissing(p, s.rcv, s.chunks);
    NewerNear(Protocol.FirstMissing(s.rcv), s.rcv.lastAckAck);
    assert s.rcv.lastAckAck <= s.rcv.lastAck && s.rcv.curr <= s.snd.curr;
    hide Inv, Protocol.FirstMissing, Newer, Filled;
  }

  lemma SpanDeliver(p: Params, s: Sys, pkt: Packet, answer: bool)
    requires InRange(p) && Inv(p, s) && SpanInv(p, s) && pkt in s.net && Young(s.snd, pkt)
    ensures SpanInv(p, Next(p, s, Deliver(pkt, answer)))
  {
    NearAll(p, s, pkt);
    assert PacketInv(p, s, pkt);
    match pkt
    case Data(t, chunk) => hide Inv, AddData, Range;
    case FullAck(ack, window) => SpanFullAck(p, s, ack, window, answer);
    case LiteAck(ack) => hide Inv;
    case Nak(runs) =>
      NakSndInv(p, s.snd, s.chunks, runs);
      hide Inv, OnNak;
    case AckAck(ack) =>
      NewerNear(ack, s.rcv.lastAckAck);
      hide Inv, Newer;
  }

  lemma SpanFullAck(p: Params, s: Sys, ack: int, window: int, answer: bool)
    requires InRange(p) && Inv(p, s) && SpanInv(p, s)
    requires FullAck(ack, window) in s.net && Young(s.snd, FullAck(ack, window))
    ensures SpanInv(p, Next(p, s, Deliver(FullAck(ack, window), answer)))
  {
    assert PacketInv(p, s, FullAck(ack, window));
    FullAckInv(p, s.snd, s.chunks, ack, window);
    hide Inv, OnFullAck;
  }

  lemma {:induction false} RunSpan(p: Params, steps: seq<Step>)
    requires InRange(p)
    ensures Inv(p, Run(p, steps)) && SpanInv(p, Run(p, steps))
  {
    RunInv(p, steps);
    if steps != [] {
      RunSpan(p, steps[..|steps| - 1]);
      SpanNext(p, Run(p, steps[..|steps| - 1]), steps[|steps| - 1]);
    }
  }

  /** In every reachable state a full acknowledgement goes out if and only if it says something new, or is due, and
      its number looks newer than the one confirmed; and then it carries the first missing number. */
  lemma {:induction false} FullAckGoesOut(p: Params, steps: seq<Step>, due: bool)
    requires InRange(p)
    ensures var r := Run(p, steps).rcv; var ack := Protocol.FirstMissing(r); var out := SendAck(r, false, due).1;
      && (out.Some? <==> (ack > r.lastAck || due) && Newer(ack, r.lastAckAck))
      && (out.Some? ==> out.value.FullAck? && out.value.ack == ack)
      && r.lastAckAck <= r.lastAck <= ack < r.lastAckAck + MODULUS
  {
    hide Run;
    RunSpan(p, steps);
    AckIff(p, Run(p, steps), due);
  }

  lemma AckIff(p: Params, s: Sys, due: bool)
    requires InRange(p) && Inv(p, s) && SpanInv(p, s)
    ensures var r := s.rcv; var ack := Protocol.FirstMissing(r); var out := SendAck(r, false, due).1;
      && (out.Some? <==> (ack > r.lastAck || due) && Newer(ack, r.lastAckAck))
      && (out.Some? ==> out.value.FullAck? && out.value.ack == ack)
      && r.lastAckAck <= r.lastAck <= ack < r.lastAckAck + MODULUS
  {
    BelowFirstMissing(p, s.rcv, s.chunks);
    assert s.rcv.lastAckAck <= s.rcv.lastAck && s.rcv.curr <= s.snd.curr;
    NewerNear(Protocol.FirstMissing(s.rcv), s.rcv.lastAckAck);
    hide Inv, Protocol.FirstMissing, Newer;
  }

  // ---------- continuations ----------

  ghost function After(p: Params, s: Sys, steps: seq<Step>): Sys
    requires Sensible(p)
  {
    if steps == [] then s else Next(p, After(p, s, steps[..|steps| - 1]), steps[|steps| - 1])
  }

  /** Some steps lead from s to t, with nothing more sent by the application. */
  ghost predicate Reaches(p: Params, s: Sys, t: Sys)
    requires InRange(p)
  {
    Inv(p, t) && SpanInv(p, t) && t.sent == s.sent && t.chunks == s.chunks && exists steps :: After(p, s, steps) == t
  }

  lemma ReachesItself(p: Params, s: Sys)
    requires InRange(p) && Inv(p, s) && SpanInv(p, s)
    ensures Reaches(p, s, s)
  {
    hide Inv, SpanInv;
    assert After(p, s, []) == s;
  }

  lemma ReachesNext(p: Params, s: Sys, t: Sys, step: Step)
    requires InRange(p) && Reaches(p, s, t) && !step.AppSend?
    ensures Reaches(p, s, Next(p, t, step))
    ensures Next(p, t, step).chunks == s.chunks
  {
    NextKeeps(p, t, step);
    SpanNext(p, t, step);
    hide Inv, SpanInv, OnData, SendAck, Recv, Retransmit, SendNew, OnTimeout, PopLoss;
    var steps :| After(p, s, steps) == t;
    assert (steps + [step])[..|steps|] == steps;
    assert After(p, s, steps + [step]) == Next(p, t, step);
  }

  // ---------- the sender can send any unacknowledged packet again ----------

  ghost predicate Due(s: Snd, x: int) {
    x in s.loss || s.lost == Some(x)
  }

  /** Popping and resending lost numbers, and a timeout once none are left, get to x. */
  lemma CanResend(p: Params, s: Sys, t: Sys, x: int) returns (u: Sys)
    requires InRange(p) && Reaches(p, s, t) && t.snd.lastAck <= x <= t.snd.curr
    ensures Reaches(p, s, u) && u.rcv == t.rcv && u.received == t.received
    ensures u.snd.curr == t.snd.curr && u.snd.lastAck == t.snd.lastAck && u.snd.window == t.snd.window
    ensures 0 <= x - p.isn < |s.chunks| && Data(x, s.chunks[x - p.isn]) in u.net
    decreases if Due(t.snd, x) then 0 else 1, 2 * |t.snd.loss| + if t.snd.lost.Some? then 1 else 0
  {
    hide Inv, SpanInv, After;
    var step := if t.snd.lost.Some? then Resend else if t.snd.loss == {} then Timeout else TakeLoss;
    u := Next(p, t, step);
    ReachesNext(p, s, t, step);
    SenderHolds(p, t, x);
    hide Reaches;
    if t.snd.lost != Some(x) {
      u := CanResend(p, s, u, x);
    }
  }

  /** An unacknowledged packet is still in the send buffer. */
  lemma SenderHolds(p: Params, t: Sys, x: int)
    requires Inv(p, t) && t.snd.lastAck <= x <= t.snd.curr
    ensures 0 <= x - t.snd.lastDataAck < |t.snd.buf.blocks| && 0 <= x - p.isn < |t.chunks|
    ensures t.snd.buf.blocks[x - t.snd.lastDataAck] == t.chunks[x - p.isn]
  {
    hide RcvInv, PacketInv, BytesRead;
  }

  // ---------- the receiver can acknowledge and hand over all it has without a gap ----------

  /** A read longer than the stream empties the buffer. */
  lemma {:induction false} ReadAll(b: Buf, len: nat)
    requires Readable(b) && len > |Stream(b)|
    ensures Read(b, len).0.acked == 0
    decreases b.acked
  {
    if b.acked > 0 {
      StreamPop(b);
      hide Stream, Readable;
      ReadAll(Pop(b), len - (|b.cells[0].chunk.bytes| - b.notch));
    }
  }

  /** Everything the receiver has in order is acknowledged and read. */
  ghost predicate CaughtUp(r: Rcv) {
    r.lastAck == Protocol.FirstMissing(r) && r.buf.acked == 0
  }

  ghost predicate SameProgress(r: Rcv, u: Rcv) {
    u.curr == r.curr && u.loss == r.loss && u.lastAckAck == r.lastAckAck
  }

  lemma CanCatchUp(p: Params, s: Sys, t: Sys) returns (u: Sys)
    requires InRange(p) && Reaches(p, s, t)
    ensures Reaches(p, s, u) && u.snd == t.snd && SameProgress(t.rcv, u.rcv) && CaughtUp(u.rcv)
    ensures Newer(u.rcv.lastAck, u.rcv.lastAckAck) ==> exists w :: FullAck(u.rcv.lastAck, w) in u.net
  {
    hide Inv, SpanInv, After, RcvInv, Stream, Read, BytesRead, Readable, SendAck, Newer;
    var t' := Next(p, t, Acknowledge(false, true));
    ReachesNext(p, s, t, Acknowledge(false, true));
    Acknowledged(p, t);
    var all := |Stream(t'.rcv.buf)| + 1;
    u := Next(p, t', AppRecv(all));
    ReachesNext(p, s, t', AppRecv(all));
    RecvInv(p, t'.rcv, t'.chunks, all);
    ReadAll(t'.rcv.buf, all);
    hide Reaches;
  }

  lemma Acknowledged(p: Params, t: Sys)
    requires InRange(p) && Inv(p, t) && SpanInv(p, t)
    ensures var u := Next(p, t, Acknowledge(false, true));
      && u.snd == t.snd && SameProgress(t.rcv, u.rcv)
      && u.rcv.lastAck == Protocol.FirstMissing(t.rcv) && Readable(u.rcv.buf) && RcvInv(p, u.rcv, u.chunks)
      && (Newer(u.rcv.lastAck, u.rcv.lastAckAck) ==> exists w :: FullAck(u.rcv.lastAck, w) in u.net)
  {
    BelowFirstMissing(p, t.rcv, t.chunks);
    AcknowledgeKeeps(p, t, false, true);
    AckIff(p, t, true);
    NewerNear(Protocol.FirstMissing(t.rcv), t.rcv.lastAckAck);
    var (rcv, out) := SendAck(t.rcv, false, true);
    var u := Next(p, t, Acknowledge(false, true));
    hide SpanInv, Protocol.FirstMissing, Filled, BytesRead, SndInv, PacketInv, Newer, Wrap;
    if out.Some? {
      assert out.value in u.net;
    }
  }

  // ---------- hope ----------

  ghost predicate Unreceived(r: Rcv, x: int) {
    x in r.loss || x > r.curr
  }

  /** The first number that the sender cannot send without being granted a new window. */
  function Ahead(s: Snd): int {
    if s.curr + 1 > s.lastAck + s.window then s.curr + 1 else s.lastAck + s.window
  }

  /** All that is queued can be sent, or an acknowledgement that looks newer can go out on the way. */
  ghost predicate Hopeful(p: Params, s: Sys) {
    || p.isn + |s.chunks| <= Ahead(s.snd)
    || exists x :: Unreceived(s.rcv, x) && x <= Ahead(s.snd) && Newer(x, s.rcv.lastAckAck)
  }

  lemma FirstIsUnreceived(p: Params, t: Sys)
    requires Inv(p, t)
    ensures var f := Protocol.FirstMissing(t.rcv);
      && Unreceived(t.rcv, f) && t.rcv.lastAckAck <= t.rcv.lastAck <= f <= t.rcv.curr + 1 <= t.snd.curr + 1
      && p.isn <= t.snd.lastAck <= f && t.snd.curr + 1 - f <= p.window && t.rcv.curr + 1 <= p.isn + |t.chunks|
      && forall x | Unreceived(t.rcv, x) :: f <= x
  {
    BelowFirstMissing(p, t.rcv, t.chunks);
    hide Filled, BytesRead, PacketInv;
  }

  /** A connection whose newest acknowledgement is confirmed has hope. */
  lemma FreshIsHopeful(p: Params, t: Sys)
    requires InRange(p) && Inv(p, t) && t.rcv.lastAckAck == Protocol.FirstMissing(t.rcv)
    ensures Hopeful(p, t)
  {
    FirstIsUnreceived(p, t);
    var f := Protocol.FirstMissing(t.rcv);
    var x := if t.rcv.loss == {} then f + 1 else t.rcv.curr + 1;
    assert 0 < x - f < SEQ_TH && x <= Ahead(t.snd);
    NewerNear(x, f);
    hide Inv, Newer, Protocol.FirstMissing;
    assert Unreceived(t.rcv, x);
  }

  /** So has one whose confirmed acknowledgement lags by less than the threshold. */
  lemma NearIsHopeful(p: Params, t: Sys)
    requires InRange(p) && Inv(p, t) && Protocol.FirstMissing(t.rcv) - t.rcv.lastAckAck < SEQ_TH
    ensures Hopeful(p, t)
  {
    FirstIsUnreceived(p, t);
    NewerNear(Protocol.FirstMissing(t.rcv), t.rcv.lastAckAck);
    if t.rcv.lastAckAck == Protocol.FirstMissing(t.rcv) {
      FreshIsHopeful(p, t);
    }
    hide Inv, Newer, Protocol.FirstMissing;
  }

  // ---------- with hope, everything can be delivered ----------

  /** The newest acknowledgement, if it goes out, can be confirmed; and that opens the window. */
  lemma CanConfirm(p: Params, s: Sys, t: Sys) returns (u: Sys)
    requires InRange(p) && Reaches(p, s, t) && CaughtUp(t.rcv) && Newer(t.rcv.lastAck, t.rcv.lastAckAck)
    requires exists w :: FullAck(t.rcv.lastAck, w) in t.net
    ensures Reaches(p, s, u) && u.rcv == t.rcv.(lastAckAck := t.rcv.lastAck) && u.snd.curr == t.snd.curr
    ensures u.snd.lastAck == t.rcv.lastAck && u.snd.window >= 2
  {
    hide Inv, SpanInv, After, Newer, CaughtUp, OnFullAck;
    var ack := t.rcv.lastAck;
    var w :| FullAck(ack, w) in t.net;
    var t' := Next(p, t, Deliver(FullAck(ack, w), true));
    ReachesNext(p, s, t, Deliver(FullAck(ack, w), true));
    ConfirmYoung(p, t, w);
    u := Next(p, t', Deliver(AckAck(ack), false));
    ReachesNext(p, s, t', Deliver(AckAck(ack), false));
    hide Reaches;
  }

  lemma ConfirmYoung(p: Params, t: Sys, w: int)
    requires InRange(p) && Inv(p, t) && CaughtUp(t.rcv) && FullAck(t.rcv.lastAck, w) in t.net
    ensures Recent(t.snd, t.rcv.lastAck) && OnFullAck(t.snd, t.rcv.lastAck, w).curr == t.snd.curr
    ensures var after := OnFullAck(t.snd, t.rcv.lastAck, w); after.lastAck == t.rcv.lastAck && after.window >= 2
  {
    FirstIsUnreceived(p, t);
    assert PacketInv(p, t, FullAck(t.rcv.lastAck, w)) && t.snd.lastAck <= t.rcv.lastAck <= t.snd.curr + 1;
    hide Inv;
  }

  /** The packet missing first can be put into the network. */
  lemma CanSend(p: Params, s: Sys, t: Sys) returns (u: Sys)
    requires InRange(p) && Reaches(p, s, t) && CaughtUp(t.rcv) && t.rcv.lastAck < p.isn + |s.chunks|
    requires Hopeful(p, t) && !Newer(t.rcv.lastAck, t.rcv.lastAckAck)
    ensures Reaches(p, s, u) && u.rcv == t.rcv && Hopeful(p, u) && 0 <= t.rcv.lastAck - p.isn < |s.chunks|
    ensures Data(t.rcv.lastAck, s.chunks[t.rcv.lastAck - p.isn]) in u.net
  {
    hide Inv, SpanInv, After, Newer;
    FirstIsUnreceived(p, t);
    if t.rcv.lastAck <= t.snd.curr {
      u := CanResend(p, s, t, t.rcv.lastAck);
    } else {
      WindowAllows(p, t);
      NextIsQueued(p, t);
      ReachesNext(p, s, t, Transmit(t.snd.window));
      hide Reaches;
      u := Next(p, t, Transmit(t.snd.window));
      assert Ahead(u.snd) == Ahead(t.snd);
    }
  }

  lemma WindowAllows(p: Params, t: Sys)
    requires Inv(p, t) && Hopeful(p, t) && !Newer(t.rcv.lastAck, t.rcv.lastAckAck) && CaughtUp(t.rcv)
    requires t.snd.curr < t.rcv.lastAck < p.isn + |t.chunks|
    ensures t.rcv.lastAck == t.snd.curr + 1 && t.snd.window >= t.snd.curr + 1 - t.snd.lastAck + 1
  {
    FirstIsUnreceived(p, t);
    hide Inv, Newer;
  }

  /** The packet after the last one sent, if there is one, is the first unsent one in the buffer. */
  lemma NextIsQueued(p: Params, t: Sys)
    requires Inv(p, t) && t.snd.curr + 1 < p.isn + |t.chunks|
    ensures 0 <= t.snd.buf.cur < |t.snd.buf.blocks| && t.snd.curr + 1 >= p.isn
    ensures t.snd.buf.blocks[t.snd.buf.cur] == t.chunks[t.snd.curr + 1 - p.isn]
  {
    hide RcvInv, PacketInv, BytesRead;
  }

  /** Receiving the packet that is missing first closes the gap. */
  lemma CanReceive(p: Params, s: Sys, t: Sys) returns (u: Sys)
    requires InRange(p) && p.rcvSize >= 2 && Reaches(p, s, t) && CaughtUp(t.rcv)
    requires Hopeful(p, t) && !Newer(t.rcv.lastAck, t.rcv.lastAckAck)
    requires 0 <= t.rcv.lastAck - p.isn < |s.chunks|
    requires Data(t.rcv.lastAck, s.chunks[t.rcv.lastAck - p.isn]) in t.net
    ensures Reaches(p, s, u) && Protocol.FirstMissing(u.rcv) > t.rcv.lastAck && Hopeful(p, u)
  {
    hide Inv, SpanInv, After, OnData, Protocol.FirstMissing, Newer, CaughtUp;
    var pkt := Data(t.rcv.lastAck, s.chunks[t.rcv.lastAck - p.isn]);
    u := Next(p, t, Deliver(pkt, false));
    ReachesNext(p, s, t, Deliver(pkt, false));
    ArrivalYoung(p, t);
    GapCloses(p, t.rcv, t.chunks, pkt.chunk);
    hide Reaches;
  }

  lemma ArrivalYoung(p: Params, t: Sys)
    requires InRange(p) && Inv(p, t) && CaughtUp(t.rcv)
    ensures RcvInv(p, t.rcv, t.chunks) && Recent(t.snd, t.rcv.lastAck)
  {
    FirstIsUnreceived(p, t);
  }

  lemma GapCloses(p: Params, r: Rcv, chunks: seq<Chunk>, chunk: Chunk)
    requires RcvInv(p, r, chunks) && CaughtUp(r) && p.rcvSize >= 2
    ensures var r1 := OnData(r, r.lastAck, chunk).0;
      && Protocol.FirstMissing(r1) > r.lastAck && r1.lastAckAck == r.lastAckAck
      && forall x | Unreceived(r, x) && x != r.lastAck :: Unreceived(r1, x)
  {
    var f := r.lastAck;
    assert !Filled(r, f);
    var r1 := OnData(r, f, chunk).0;
    assert r1.loss == r.loss - {f} || (f == r.curr + 1 && r1.loss == r.loss);
  }

  lemma CanProgress(p: Params, s: Sys, t: Sys) returns (u: Sys)
    requires InRange(p) && p.rcvSize >= 2 && Reaches(p, s, t) && Hopeful(p, t)
    requires Protocol.FirstMissing(t.rcv) < p.isn + |s.chunks|
    ensures Reaches(p, s, u) && Protocol.FirstMissing(u.rcv) > Protocol.FirstMissing(t.rcv) && Hopeful(p, u)
  {
    hide Inv, SpanInv, After, Newer;
    u := CanCatchUp(p, s, t);
    if Newer(u.rcv.lastAck, u.rcv.lastAckAck) {
      u := CanConfirm(p, s, u);
      FreshIsHopeful(p, u);
      NewerNear(u.rcv.lastAck, u.rcv.lastAck);
    }
    assert CaughtUp(u.rcv) && Hopeful(p, u) && u.rcv.lastAck == Protocol.FirstMissing(t.rcv);
    hide Reaches, CaughtUp, Hopeful, Protocol.FirstMissing;
    u := CanSend(p, s, u);
    u := CanReceive(p, s, u);
  }

  lemma CanComplete(p: Params, s: Sys, t: Sys) returns (u: Sys)
    requires InRange(p) && p.rcvSize >= 2 && Reaches(p, s, t) && Hopeful(p, t)
    ensures Reaches(p, s, u) && u.received == s.sent
    decreases p.isn + |s.chunks| - Protocol.FirstMissing(t.rcv)
  {
    FirstIsUnreceived(p, t);
    hide Hopeful;
    if Protocol.FirstMissing(t.rcv) < p.isn + |s.chunks| {
      u := CanProgress(p, s, t);
      u := CanComplete(p, s, u);
    } else {
      u := CanCatchUp(p, s, t);
      EverythingRead(p, u);
    }
  }

  // ---------- without hope, something queued is never delivered ----------

  /** What stays true when a connection without hope at s0 goes on: no full acknowledgement ever gets out. */
  ghost predicate Hopeless(s0: Sys, s: Sys) {
    && s0.chunks <= s.chunks && s0.sent <= s.sent
    && s.rcv.lastAckAck == s0.rcv.lastAckAck
    && Ahead(s.snd) == Ahead(s0.snd) && s.snd.lastAck + s.snd.window == s0.snd.lastAck + s0.snd.window
    && s0.rcv.curr <= s.rcv.curr && (forall x | x in s.rcv.loss :: Unreceived(s0.rcv, x))
    && forall pkt | pkt in s.net :: !pkt.FullAck? && !pkt.AckAck?
  }

  lemma HopelessNext(p: Params, s0: Sys, s: Sys, step: Step)
    requires InRange(p) && Inv(p, s) && SpanInv(p, s) && !Hopeful(p, s0) && Hopeless(s0, s)
    ensures Hopeless(s0, Next(p, s, step))
  {
    match step
    case Acknowledge(lite, due) => HopelessAck(p, s0, s, lite, due);
    case Deliver(pkt, answer) => if pkt in s.net && Young(s.snd, pkt) { HopelessDeliver(p, s0, s, pkt, answer); }
    case AppSend(data) => hide Inv, Chop, SpanInv, Newer;
    case _ => hide Inv, SpanInv, Least, Range, Newer;
  }

  lemma HopelessAck(p: Params, s0: Sys, s: Sys, lite: bool, due: bool)
    requires InRange(p) && Inv(p, s) && SpanInv(p, s) && !Hopeful(p, s0) && Hopeless(s0, s)
    ensures Hopeless(s0, Next(p, s, Acknowledge(lite, due)))
  {
    FirstIsUnreceived(p, s);
    var ack := Protocol.FirstMissing(s.rcv);
    assert Unreceived(s0.rcv, ack) && ack <= Ahead(s0.snd);
    assert !Newer(ack, s.rcv.lastAckAck);
    hide Inv, SpanInv, Protocol.FirstMissing, Newer, Wrap;
  }

  lemma HopelessDeliver(p: Params, s0: Sys, s: Sys, pkt: Packet, answer: bool)
    requires InRange(p) && Inv(p, s) && !Hopeful(p, s0) && Hopeless(s0, s) && pkt in s.net && Young(s.snd, pkt)
    ensures Hopeless(s0, Next(p, s, Deliver(pkt, answer)))
  {
    assert PacketInv(p, s, pkt);
    hide Hopeful;
    match pkt
    case Data(t, chunk) =>
      HopelessData(p, s, t, chunk);
      hide Inv, OnData;
    case LiteAck(ack) => hide Inv;
    case Nak(runs) =>
      NakSndInv(p, s.snd, s.chunks, runs);
      hide Inv, OnNak;
    case _ =>
  }

  lemma HopelessData(p: Params, s: Sys, t: int, chunk: Chunk)
    requires Inv(p, s) && Data(t, chunk) in s.net
    ensures var (rcv, out) := OnData(s.rcv, t, chunk);
      && rcv.lastAckAck == s.rcv.lastAckAck && s.rcv.curr <= rcv.curr
      && (forall x | x in rcv.loss :: Unreceived(s.rcv, x)) && (out.Some? ==> out.value.Nak?)
  {
    assert PacketInv(p, s, Data(t, chunk));
    OnDataInv(p, s.rcv, s.chunks, t, chunk);
    hide Inv, RcvInv, BytesRead, AddData, Range;
  }

  lemma {:induction false} StaysHopeless(p: Params, s0: Sys, more: seq<Step>)
    requires InRange(p) && Inv(p, s0) && SpanInv(p, s0) && s0.net == {} && !Hopeful(p, s0)
    ensures var s := After(p, s0, more); Inv(p, s) && SpanInv(p, s) && Hopeless(s0, s)
  {
    if more != [] {
      var n := |more| - 1;
      StaysHopeless(p, s0, more[..n]);
      var s := After(p, s0, more[..n]);
      NextKeeps(p, s, more[n]);
      SpanNext(p, s, more[n]);
      HopelessNext(p, s0, s, more[n]);
    }
  }

  ghost predicate NoEmpty(chunks: seq<Chunk>) {
    forall i | 0 <= i < |chunks| :: chunks[i].bytes != []
  }

  lemma {:induction false} ChopNoEmpty(data: seq<byte>, mss: int, msgNo: bv32, order: bool, first: bool)
    requires mss > 0
    ensures NoEmpty(Chop(data, mss, msgNo, order, first))
    decreases |data|
  {
    hide MakeHeader;
    if |data| > mss {
      ChopNoEmpty(data[mss..], mss, msgNo, order, false);
    }
  }

  /** No empty packet is ever queued. */
  lemma {:induction false} RunNoEmpty(p: Params, steps: seq<Step>)
    requires Sensible(p)
    ensures NoEmpty(Run(p, steps).chunks)
  {
    if steps != [] {
      var s, step := Run(p, steps[..|steps| - 1]), steps[|steps| - 1];
      RunNoEmpty(p, steps[..|steps| - 1]);
      if step.AppSend? {
        var n := Protocol.Send(s.snd, step.data, p.mss, p.sndLimit).1;
        if 0 < n <= |step.data| {
          ChopNoEmpty(step.data[..n], p.mss, s.snd.buf.nextMsgNo, false, true);
        }
      }
      hide Chop, OnData, OnFullAck, OnNak, SendAck, Recv, Protocol.Send;
    }
  }

  /** A prefix of the packets that leaves one out has fewer bytes. */
  lemma FewerBytes(chunks: seq<Chunk>, k: nat)
    requires NoEmpty(chunks) && k < |chunks|
    ensures |Flatten(chunks[..k])| < |Flatten(chunks)|
  {
    assert chunks == chunks[..k] + chunks[k..];
    FlattenConcat(chunks[..k], chunks[k..]);
    FlattenHead(chunks[k..]);
    hide Flatten;
    assert chunks[k..][0] == chunks[k];
  }

  lemma ReceivedBound(p: Params, s: Sys)
    requires Inv(p, s)
    ensures 0 <= s.rcv.lastAck - p.isn <= |s.chunks| && s.sent == Flatten(s.chunks)
    ensures |s.received| <= |Flatten(s.chunks[..s.rcv.lastAck - p.isn])|
  {
    hide SndInv, Flatten, Stream, PacketInv;
    ReadPlusStream(p, s.rcv, s.chunks);
    AckedChunks(p, s.rcv, s.chunks);
  }

  lemma NeverComplete(p: Params, s0: Sys, s: Sys)
    requires InRange(p) && Inv(p, s0) && Inv(p, s) && Hopeless(s0, s) && !Hopeful(p, s0) && NoEmpty(s0.chunks)
    ensures |s.received| < |s0.sent|
  {
    hide Inv, Flatten, NoEmpty;
    FirstIsUnreceived(p, s);
    ReceivedBound(p, s0);
    ReceivedBound(p, s);
    var k := s.rcv.lastAck - p.isn;
    assert k < |s0.chunks| && s0.chunks <= s.chunks;
    assert s.chunks[..k] == s0.chunks[..k];
    FewerBytes(s0.chunks, k);
  }

  // ---------- the theorems ----------

  /** From a reachable state in which every packet under way is lost, everything sent can still be delivered if and
      only if there is hope. */
  lemma {:induction false} RecoversExactly(p: Params, steps: seq<Step>)
    requires InRange(p) && p.rcvSize >= 2
    ensures var lost := Run(p, steps).(net := {});
      Hopeful(p, lost) <==> exists more :: lost.sent <= After(p, lost, more).received
  {
    var lost := Run(p, steps).(net := {});
    RunSpan(p, steps);
    RunNoEmpty(p, steps);
    LossIsHarmless(p, Run(p, steps));
    hide Run, Inv, SpanInv, Hopeful, After;
    if Hopeful(p, lost) {
      var more := HopefulRecovers(p, lost);
    } else {
      forall more: seq<Step>
        ensures !(lost.sent <= After(p, lost, more).received)
      {
        StaysHopeless(p, lost, more);
        NeverComplete(p, lost, After(p, lost, more));
      }
    }
  }

  lemma HopefulRecovers(p: Params, lost: Sys) returns (more: seq<Step>)
    requires InRange(p) && p.rcvSize >= 2 && Inv(p, lost) && SpanInv(p, lost) && Hopeful(p, lost)
    ensures After(p, lost, more).received == lost.sent == After(p, lost, more).sent
  {
    hide Inv, SpanInv, After, Hopeful;
    ReachesItself(p, lost);
    var end := CanComplete(p, lost, lost);
    more :| After(p, lost, more) == end;
  }

  /** From every reachable state in which the confirmed acknowledgement lags by less than the comparison threshold,
      even with all packets under way lost, some further steps deliver everything the application has sent. */
  lemma {:induction false} AlwaysRecovers(p: Params, steps: seq<Step>) returns (more: seq<Step>)
    requires InRange(p) && p.rcvSize >= 2
    requires var r := Run(p, steps).rcv; Protocol.FirstMissing(r) - r.lastAckAck < SEQ_TH
    ensures var lost := Run(p, steps).(net := {});
      After(p, lost, more).received == lost.sent == After(p, lost, more).sent
  {
    var lost := Run(p, steps).(net := {});
    RunSpan(p, steps);
    LossIsHarmless(p, Run(p, steps));
    hide Run;
    NearIsHopeful(p, lost);
    more := HopefulRecovers(p, lost);
  }

  lemma LossIsHarmless(p: Params, s: Sys)
    requires Inv(p, s) && SpanInv(p, s)
    ensures Inv(p, s.(net := {})) && SpanInv(p, s.(net := {}))
  {
    hide SndInv, RcvInv, PacketInv;
  }

  /** Two slots are necessary: one is always kept empty, so with a single slot nothing is ever received. */
  lemma {:induction false} OneSlotIsTooFew(p: Params, steps: seq<Step>)
    requires Sensible(p) && p.rcvSize == 1
    ensures Run(p, steps).received == [] && Run(p, steps).rcv.lastAck == p.isn
  {
    if steps != [] {
      var s := Run(p, steps[..|steps| - 1]);
      OneSlotIsTooFew(p, steps[..|steps| - 1]);
      RunInv(p, steps[..|steps| - 1]);
      StaysEmpty(p, s, steps[|steps| - 1]);
    }
  }

  lemma StaysEmpty(p: Params, s: Sys, step: Step)
    requires Sensible(p) && p.rcvSize == 1 && Inv(p, s) && s.received == [] && s.rcv.lastAck == p.isn
    ensures Next(p, s, step).received == [] && Next(p, s, step).rcv.lastAck == p.isn
  {
    assert forall x :: x !in s.rcv.loss;
    EmptyHasNone(s.rcv.loss);
    assert s.rcv.buf.acked == 0 && s.rcv.curr == p.isn - 1 && s.rcv.lastAckAck == p.isn;
    hide Inv, OnFullAck, OnNak, OnTimeout, PopLoss, Retransmit, SendNew, Send;
  }
}
