/** A sender and a receiver joined by a network of packets with 31-bit numbers. The network loses,
    duplicates and reorders them, but delivers none that has become half the sequence space old. */
module Connections {
  import opened Basics
  import opened SeqNo
  import opened Packets
  import opened Intervals
  import opened RcvBuffers
  import opened RcvLossLists
  import opened SndLossLists
  import opened Naks
  import opened Senders
  import opened Receivers
  import B = SndBuffers
  import P = Protocol
  import R = Recovery

  /** A packet under way, stamped with how many numbers had been given out when it, or the acknowledgement it
      confirms, was sent. */
  datatype Letter = Letter(wire: Wire, stamp: int)

  datatype Event =
    | Write(data: seq<byte>)
    | Turn(cwnd: int)
    | Expire
    | Arrive(letter: Letter, answer: bool)
    | Acknowledge(lite: bool, due: bool)
    | ReadOut(len: nat)

  /** The numbers of a packet were in use when it was stamped. */
  ghost predicate Stamped(p: P.Params, pkt: P.Packet, stamp: int) {
    match pkt
    case Data(t, chunk) => stamp - p.window <= t
    case FullAck(ack, window) => stamp - p.window <= ack
    case LiteAck(ack) => stamp - p.window <= ack
    case Nak(runs) => forall i | 0 <= i < |runs| :: stamp - p.window <= runs[i].lo
    case AckAck(ack) => stamp - p.window <= ack
  }

  /** The letters are packets of the protocol's network. */
  ghost predicate Genuine(p: P.Params, net: set<Letter>, packets: set<P.Packet>) {
    forall l | l in net :: exists pkt :: pkt in packets && Encode(pkt) == l.wire && Stamped(p, pkt, l.stamp)
  }

  /** The network with what an endpoint sends, if anything. */
  function Posted(net: set<Letter>, out: Option<Wire>, stamp: int): set<Letter> {
    if out.None? then net else net + {Letter(out.value, stamp)}
  }

  lemma GenuineMore(p: P.Params, net: set<Letter>, packets: set<P.Packet>, out: Option<P.Packet>, stamp: int)
    requires Genuine(p, net, packets) && (out.Some? ==> Stamped(p, out.value, stamp))
    ensures Genuine(p, Posted(net, EncodeOption(out), stamp), P.Post(packets, out))
  {
    hide Stamped, Encode;
    var now := P.Post(packets, out);
    forall l | l in net
      ensures exists pkt :: pkt in now && Encode(pkt) == l.wire && Stamped(p, pkt, l.stamp)
    {
      var pkt :| pkt in packets && Encode(pkt) == l.wire && Stamped(p, pkt, l.stamp);
      assert pkt in now;
    }
    if out.Some? {
      assert out.value in now;
    }
  }

  lemma RunMore(p: P.Params, steps: seq<P.Step>, step: P.Step)
    requires P.Sensible(p)
    ensures P.Run(p, steps + [step]) == P.Next(p, P.Run(p, steps), step)
  {
    hide P.Next;
    assert (steps + [step])[..|steps|] == steps;
  }

  lemma WriteFacts(p: P.Params, s: P.Sys, data: seq<byte>)
    requires P.Sensible(p)
    ensures var (snd, n) := P.Send(s.snd, data, p.mss, p.sndLimit); var t := P.Next(p, s, P.AppSend(data));
      && 0 <= n <= |data| && t.snd == snd && snd.curr == s.snd.curr && t.rcv == s.rcv && t.net == s.net
      && t.sent == s.sent + data[..n] && t.received == s.received
  {
    hide B.Chop, B.NextMsgNo;
  }

  /** What a turn of the sending thread leaves: the packet's number is recent, and new exactly when it follows the
      largest one sent. */
  lemma TurnFacts(p: P.Params, s: P.Sys, cwnd: int)
    requires R.InRange(p) && P.Inv(p, s) && s.snd.lost.None?
    ensures var (snd, out) := P.PackData(s.snd, cwnd);
      && snd.lost.None?
      && (out.None? ==> snd.curr == s.snd.curr)
      && (out.Some? ==>
            && out.value.Data? && Stamped(p, out.value, snd.curr + 1)
            && snd.curr == if Wrap(out.value.seqno) == Wrap(s.snd.curr + 1) then s.snd.curr + 1 else s.snd.curr)
  {
    var (snd, out) := P.PackData(s.snd, cwnd);
    if out.Some? {
      WrapInjective(out.value.seqno, s.snd.curr + 1);
    }
  }

  /** What the receiver sends is recent. */
  lemma ArrivalFacts(p: P.Params, s: P.Sys, t: int, chunk: Chunk)
    requires R.InRange(p) && P.Inv(p, s) && P.Data(t, chunk) in s.net
    ensures var out := P.OnData(s.rcv, t, chunk).1; out.Some? ==> Stamped(p, out.value, s.snd.curr + 1)
  {
    assert s.rcv.lastAck - 1 <= s.rcv.curr && s.snd.curr + 1 <= s.rcv.lastAck + p.window;
    hide P.Inv, AddData, Range;
  }

  lemma AckFacts(p: P.Params, s: P.Sys, lite: bool, due: bool)
    requires R.InRange(p) && P.Inv(p, s)
    ensures var out := P.SendAck(s.rcv, lite, due).1; out.Some? ==> Stamped(p, out.value, s.snd.curr + 1)
  {
    P.BelowFirstMissing(p, s.rcv, s.chunks);
    assert s.snd.curr + 1 <= s.rcv.lastAck + p.window;
    hide P.Inv, P.FirstMissing, Newer, Wrap;
  }

  lemma LetterIsYoung(p: P.Params, s: P.Sys, pkt: P.Packet, stamp: int)
    requires R.InRange(p) && P.Inv(p, s) && pkt in s.net && Stamped(p, pkt, stamp)
    requires s.snd.curr + 1 - stamp < SEQ_TH - p.window
    ensures P.Young(s.snd, pkt) && P.IsNear(s, pkt) && P.PacketInv(p, s, pkt)
  {
    P.NearAll(p, s, pkt);
  }

  /** A turn of the sending thread goes on with the run. */
  lemma TurnRun(p: P.Params, steps: seq<P.Step>, cwnd: int)
    requires P.Sensible(p) && P.Run(p, steps).snd.lost.None?
    ensures var s := P.Run(p, steps); var (snd, out) := P.PackData(s.snd, cwnd);
      P.Run(p, steps + P.TurnSteps(s, cwnd)) == s.(snd := snd, net := P.Post(s.net, out))
  {
    hide P.Run, P.Next, P.PackData, P.Post;
    var s := P.Run(p, steps);
    P.PackIsSteps(p, s, cwnd);
    RunMore(p, steps, P.TakeLoss);
    RunMore(p, steps + [P.TakeLoss], P.Resend);
    RunMore(p, steps, P.Transmit(cwnd));
    assert steps + [P.TakeLoss, P.Resend] == steps + [P.TakeLoss] + [P.Resend];
  }

  // ---------- the two endpoints ----------

  ghost function Objects(snd: Sender, rcv: Receiver): set<object>
    reads snd.buffer
  {
    {snd, snd.buffer, snd.lossList, snd.lossList.data1, snd.lossList.data2, snd.lossList.next}
    + snd.buffer.Blocks() + ReceiverObjects(rcv)
  }

  ghost function ReceiverObjects(rcv: Receiver): set<object> {
    {rcv, rcv.lossList, rcv.lossList.data1, rcv.lossList.data2, rcv.lossList.next, rcv.lossList.prior, rcv.buffer,
     rcv.buffer.unit}
  }

  ghost predicate Apart(snd: Sender, rcv: Receiver) {
    {snd.lossList.data1, snd.lossList.data2, snd.lossList.next}
    !! {rcv.lossList.data1, rcv.lossList.data2, rcv.lossList.next, rcv.lossList.prior}
  }

  ghost predicate Joined(snd: Sender, rcv: Receiver, p: P.Params)
    reads Objects(snd, rcv)
  {
    && Apart(snd, rcv) && snd.Valid() && rcv.Valid()
    && snd.negotiated == p.window && snd.buffer.mss == p.mss && snd.sndBufSize == p.sndLimit
  }

  /** What is not inside the endpoints: how many numbers have been given out, counted from zero at number zero; what is
      under way; what the applications have handed over and got. */
  datatype Outside = Outside(newest: int, net: set<Letter>, sent: seq<byte>, received: seq<byte>)

  ghost predicate Matches(p: P.Params, o: Outside, s: P.Sys) {
    o.newest == s.snd.curr && o.sent == s.sent && o.received == s.received && Genuine(p, o.net, s.net)
  }

  /** The endpoints with their wrapped numbers and all around them are where a run of the protocol leads to. */
  ghost predicate OnRun(snd: Sender, rcv: Receiver, o: Outside, p: P.Params, steps: seq<P.Step>)
    reads Objects(snd, rcv)
  {
    && R.InRange(p) && Joined(snd, rcv, p) && Matches(p, o, P.Run(p, steps))
    && snd.View() == P.Run(p, steps).snd && rcv.View() == P.Run(p, steps).rcv
  }

  // ---------- what an event stands for ----------

  /** The network still has the letter, and it is young enough to be delivered. */
  predicate Deliverable(o: Outside, letter: Letter, window: int) {
    letter in o.net && o.newest + 1 - letter.stamp < SEQ_TH - window
  }

  /** The letter stands for pkt, which the protocol may deliver. */
  ghost predicate Means(p: P.Params, s: P.Sys, letter: Letter, pkt: P.Packet) {
    pkt in s.net && Encode(pkt) == letter.wire && Stamped(p, pkt, letter.stamp) && P.Young(s.snd, pkt)
  }

  /** What the addressee of pkt sends back at once. */
  ghost function Reply(s: P.Sys, pkt: P.Packet, answer: bool): Option<P.Packet> {
    match pkt
    case Data(t, chunk) => P.OnData(s.rcv, t, chunk).1
    case FullAck(ack, window) => if answer then Some(P.AckAck(ack)) else None
    case _ => None
  }

  /** With the protocol in state s, the event is these steps, and now is what is outside the endpoints after it. */
  ghost predicate Stands(p: P.Params, o: Outside, s: P.Sys, event: Event, part: seq<P.Step>, now: Outside)
    requires P.Sensible(p)
  {
    match event
    case Write(data) => part == [P.AppSend(data)] && now == o.(sent := P.Next(p, s, P.AppSend(data)).sent)
    case Turn(cwnd) =>
      var (snd, out) := P.PackData(s.snd, cwnd);
      && part == P.TurnSteps(s, cwnd)
      && now == o.(newest := snd.curr, net := Posted(o.net, EncodeOption(out), snd.curr + 1))
    case Expire => part == [P.Timeout] && now == o
    case Arrive(letter, answer) =>
      if !Deliverable(o, letter, p.window) then part == [] && now == o
      else
        && |part| == 1 && part[0].Deliver? && part[0].answer == answer && Means(p, s, letter, part[0].pkt)
        && now == o.(net := Posted(o.net, EncodeOption(Reply(s, part[0].pkt, answer)), ReplyStamp(o, letter)))
    case Acknowledge(lite, due) =>
      && part == [P.Acknowledge(lite, due)]
      && now == o.(net := Posted(o.net, EncodeOption(P.SendAck(s.rcv, lite, due).1), o.newest + 1))
    case ReadOut(len) => part == [P.AppRecv(len)] && now == o.(received := P.Next(p, s, P.AppRecv(len)).received)
  }

  /** A confirmation is as old as the acknowledgement it confirms. */
  function ReplyStamp(o: Outside, letter: Letter): int {
    if letter.wire.WireAck? then letter.stamp else o.newest + 1
  }

  /** Whatever an event posts can be delivered next. */
  lemma PostedIsDeliverable(p: P.Params, o: Outside, s: P.Sys, event: Event, part: seq<P.Step>, now: Outside,
                            letter: Letter)
    requires R.InRange(p) && Stands(p, o, s, event, part, now) && letter in now.net && letter !in o.net
    ensures Deliverable(now, letter, p.window)
  {
    hide P.Next, P.PackData, P.SendAck, P.OnData, Encode, Means;
  }

  /** The events of the script, one after the other, take the protocol from after steps to after more. */
  ghost predicate Follows(p: P.Params, o: Outside, steps: seq<P.Step>, script: seq<Event>, now: Outside,
                          more: seq<P.Step>)
    requires P.Sensible(p)
    decreases |script|
  {
    if script == [] then now == o && more == steps
    else
      exists part: seq<P.Step>, mid: Outside ::
        Stands(p, o, P.Run(p, steps), script[0], part, mid) && Follows(p, mid, steps + part, script[1..], now, more)
  }

  // ---------- the endpoints ----------

  /** The application hands over data. */
  method DoWrite(snd: Sender, rcv: Receiver, o: Outside, data: seq<byte>, ghost p: P.Params, ghost steps: seq<P.Step>)
    returns (now: Outside, ghost more: seq<P.Step>)
    requires OnRun(snd, rcv, o, p, steps)
    modifies snd.buffer, snd.buffer.Blocks()
    ensures OnRun(snd, rcv, now, p, more) && fresh(Objects(snd, rcv) - old(Objects(snd, rcv)))
    ensures more == steps + [P.AppSend(data)] && P.Run(p, more) == P.Next(p, P.Run(p, steps), P.AppSend(data))
    ensures Stands(p, o, P.Run(p, steps), Write(data), more[|steps|..], now)
  {
    hide Sender.Valid, Receiver.Valid, Sender.View, Receiver.View, B.SndBuffer.Valid, P.Send, P.Run, P.Next, Genuine;
    WriteFacts(p, P.Run(p, steps), data);
    RunMore(p, steps, P.AppSend(data));
    var n := snd.Send(data);
    now, more := o.(sent := o.sent + data[..n]), steps + [P.AppSend(data)];
    Appended(steps, [P.AppSend(data)]);
  }

  /** The sending thread takes its turn. */
  method DoTurn(snd: Sender, rcv: Receiver, o: Outside, cwnd: int, ghost p: P.Params, ghost steps: seq<P.Step>)
    returns (now: Outside, ghost more: seq<P.Step>)
    requires OnRun(snd, rcv, o, p, steps)
    modifies snd, snd.buffer, snd.lossList, snd.lossList.data1, snd.lossList.data2, snd.lossList.next
    ensures OnRun(snd, rcv, now, p, more) && Objects(snd, rcv) == old(Objects(snd, rcv))
    ensures more == steps + P.TurnSteps(P.Run(p, steps), cwnd)
    ensures var s := P.Run(p, steps); var (sent, out) := P.PackData(s.snd, cwnd);
      P.Run(p, more) == s.(snd := sent, net := P.Post(s.net, out))
    ensures Stands(p, o, P.Run(p, steps), Turn(cwnd), more[|steps|..], now)
  {
    hide Sender.Valid, Receiver.Valid, Sender.View, Receiver.View, B.SndBuffer.Valid, P.Run, P.Next, Genuine,
      P.PackData, P.Post, P.Inv, Stamped, Wrap, Stands, P.TurnSteps;
    ghost var s := P.Run(p, steps);
    P.RunInv(p, steps);
    NothingHeld(snd);
    TurnFacts(p, s, cwnd);
    TurnRun(p, steps, cwnd);
    more := steps + P.TurnSteps(s, cwnd);
    var some, seqno, chunk := snd.PackData(cwnd);
    var newest := if some && seqno == Wrap(o.newest + 1) then o.newest + 1 else o.newest;
    GenuineMore(p, o.net, s.net, P.PackData(s.snd, cwnd).1, newest + 1);
    now := o.(newest := newest,
              net := Posted(o.net, if some then Some(WireData(seqno, chunk)) else None, newest + 1));
    TurnStands(p, o, s, cwnd, now);
    Appended(steps, P.TurnSteps(s, cwnd));
  }

  lemma TurnStands(p: P.Params, o: Outside, s: P.Sys, cwnd: int, now: Outside)
    requires P.Sensible(p)
    requires var (snd, out) := P.PackData(s.snd, cwnd);
      now == o.(newest := snd.curr, net := Posted(o.net, EncodeOption(out), snd.curr + 1))
    ensures Stands(p, o, s, Turn(cwnd), P.TurnSteps(s, cwnd), now)
  {
    hide P.PackData;
  }

  lemma NothingHeld(snd: Sender)
    requires snd.Valid()
    ensures snd.View().lost.None?
  {
  }

  /** Nothing has been heard for too long. */
  method DoExpire(snd: Sender, rcv: Receiver, o: Outside, ghost p: P.Params, ghost steps: seq<P.Step>)
    returns (now: Outside, ghost more: seq<P.Step>)
    requires OnRun(snd, rcv, o, p, steps)
    modifies snd.lossList, snd.lossList.data1, snd.lossList.data2, snd.lossList.next
    ensures OnRun(snd, rcv, now, p, more) && Objects(snd, rcv) == old(Objects(snd, rcv))
    ensures more == steps + [P.Timeout] && P.Run(p, more) == P.Next(p, P.Run(p, steps), P.Timeout)
    ensures Stands(p, o, P.Run(p, steps), Expire, more[|steps|..], now)
  {
    hide Sender.Valid, Receiver.Valid, Sender.View, Receiver.View, B.SndBuffer.Valid, P.Run, P.Next, Genuine, P.Post,
      P.Inv, Stamped, Wrap, Encode, P.OnTimeout;
    TimeoutNext(p, P.Run(p, steps));
    RunMore(p, steps, P.Timeout);
    snd.ExpTimeout();
    now, more := o, steps + [P.Timeout];
    Appended(steps, [P.Timeout]);
  }

  lemma TimeoutNext(p: P.Params, s: P.Sys)
    requires P.Sensible(p)
    ensures P.Next(p, s, P.Timeout) == s.(snd := P.OnTimeout(s.snd)) && P.OnTimeout(s.snd).curr == s.snd.curr
  {
    hide Range;
  }

  /** The receiver acknowledges. */
  method DoAcknowledge(snd: Sender, rcv: Receiver, o: Outside, lite: bool, due: bool, ghost p: P.Params,
                       ghost steps: seq<P.Step>)
    returns (now: Outside, ghost more: seq<P.Step>)
    requires OnRun(snd, rcv, o, p, steps)
    modifies rcv, rcv.buffer
    ensures OnRun(snd, rcv, now, p, more) && Objects(snd, rcv) == old(Objects(snd, rcv))
    ensures more == steps + [P.Acknowledge(lite, due)]
    ensures P.Run(p, more) == P.Next(p, P.Run(p, steps), P.Acknowledge(lite, due))
    ensures Stands(p, o, P.Run(p, steps), Acknowledge(lite, due), more[|steps|..], now)
  {
    hide Sender.Valid, Receiver.Valid, Sender.View, Receiver.View, B.SndBuffer.Valid, P.Run, P.Next, Genuine, P.Post,
      P.Inv, Stamped, Wrap, Encode, P.SendAck;
    ghost var s := P.Run(p, steps);
    P.RunInv(p, steps);
    AckFacts(p, s, lite, due);
    AckNext(p, s, lite, due);
    RunMore(p, steps, P.Acknowledge(lite, due));
    GenuineMore(p, o.net, s.net, P.SendAck(s.rcv, lite, due).1, o.newest + 1);
    var out := rcv.SendAck(lite, due);
    now, more := o.(net := Posted(o.net, out, o.newest + 1)), steps + [P.Acknowledge(lite, due)];
    Appended(steps, [P.Acknowledge(lite, due)]);
  }

  lemma AckNext(p: P.Params, s: P.Sys, lite: bool, due: bool)
    requires P.Sensible(p)
    ensures var (rcv, out) := P.SendAck(s.rcv, lite, due);
      P.Next(p, s, P.Acknowledge(lite, due)) == s.(rcv := rcv, net := P.Post(s.net, out))
  {
    hide P.SendAck;
  }

  /** The application reads. */
  method DoReadOut(snd: Sender, rcv: Receiver, o: Outside, len: nat, ghost p: P.Params, ghost steps: seq<P.Step>)
    returns (now: Outside, ghost more: seq<P.Step>)
    requires OnRun(snd, rcv, o, p, steps)
    modifies rcv.buffer, rcv.buffer.unit
    ensures OnRun(snd, rcv, now, p, more) && Objects(snd, rcv) == old(Objects(snd, rcv))
    ensures more == steps + [P.AppRecv(len)] && P.Run(p, more) == P.Next(p, P.Run(p, steps), P.AppRecv(len))
    ensures Stands(p, o, P.Run(p, steps), ReadOut(len), more[|steps|..], now)
  {
    hide Sender.Valid, Receiver.Valid, Sender.View, Receiver.View, B.SndBuffer.Valid, P.Run, P.Next, Genuine, P.Post,
      P.Inv, Stamped, Wrap, Encode, P.Recv;
    ReadNext(p, P.Run(p, steps), len);
    RunMore(p, steps, P.AppRecv(len));
    var data := rcv.Recv(len);
    now, more := o.(received := o.received + data), steps + [P.AppRecv(len)];
    Appended(steps, [P.AppRecv(len)]);
  }

  lemma ReadNext(p: P.Params, s: P.Sys, len: nat)
    requires P.Sensible(p)
    ensures var (rcv, out) := P.Recv(s.rcv, len);
      P.Next(p, s, P.AppRecv(len)) == s.(rcv := rcv, received := s.received + out)
  {
    hide P.Recv;
  }

  // ---------- delivery ----------

  /** A letter that is young enough stands for a packet the protocol may deliver. */
  lemma LetterStands(p: P.Params, s: P.Sys, net: set<Letter>, letter: Letter) returns (pkt: P.Packet)
    requires R.InRange(p) && P.Inv(p, s) && Genuine(p, net, s.net) && letter in net
    requires s.snd.curr + 1 - letter.stamp < SEQ_TH - p.window
    ensures Means(p, s, letter, pkt) && P.IsNear(s, pkt) && P.PacketInv(p, s, pkt)
  {
    pkt :| pkt in s.net && Encode(pkt) == letter.wire && Stamped(p, pkt, letter.stamp);
    LetterIsYoung(p, s, pkt, letter.stamp);
  }

  /** A young packet's numbers lie in the half of the sequence space that ends with the newest one. */
  lemma WithinHalf(p: P.Params, s: P.Sys, pkt: P.Packet)
    requires R.InRange(p) && P.Inv(p, s) && pkt in s.net && P.Young(s.snd, pkt)
    ensures match pkt
      case Data(t, chunk) => s.snd.curr + 1 - SEQ_TH < t <= s.snd.curr + 1
      case FullAck(ack, window) => s.snd.curr + 1 - SEQ_TH < ack <= s.snd.curr + 1
      case LiteAck(ack) => s.snd.curr + 1 - SEQ_TH < ack <= s.snd.curr + 1
      case Nak(runs) => forall i | 0 <= i < |runs| ::
        s.snd.curr + 1 - SEQ_TH < runs[i].lo <= runs[i].hi <= s.snd.curr + 1
      case AckAck(ack) => s.snd.curr + 1 - SEQ_TH < ack <= s.snd.curr + 1
  {
    P.NearAll(p, s, pkt);
    assert P.PacketInv(p, s, pkt) && s.rcv.curr <= s.snd.curr && s.rcv.lastAck <= s.snd.curr + 1;
    hide P.Inv;
  }

  /** A letter has one meaning: no two packets that the protocol may deliver look alike on the wire. */
  lemma OneMeaning(p: P.Params, s: P.Sys, letter: Letter, a: P.Packet, b: P.Packet)
    requires R.InRange(p) && P.Inv(p, s) && Means(p, s, letter, a) && Means(p, s, letter, b)
    ensures a == b
  {
    WithinHalf(p, s, a);
    WithinHalf(p, s, b);
    hide P.Inv, Stamped, P.Young, Wrap, EncodeRuns;
    match a
    case Data(t, chunk) => WrapInjective(a.seqno, b.seqno);
    case FullAck(_, window) => WrapInjective(a.ack, b.ack);
    case LiteAck(_) => WrapInjective(a.ack, b.ack);
    case AckAck(_) => WrapInjective(a.ack, b.ack);
    case Nak(runs) => SameRuns(a.runs, b.runs, s.snd.curr + 1);
  }

  lemma SameRuns(a: seq<Node>, b: seq<Node>, top: int)
    requires EncodeRuns(a) == EncodeRuns(b)
    requires forall i | 0 <= i < |a| :: top - SEQ_TH < a[i].lo <= a[i].hi <= top
    requires forall i | 0 <= i < |b| :: top - SEQ_TH < b[i].lo <= b[i].hi <= top
    ensures a == b
  {
    NakRoundTrip(a);
    NakRoundTrip(b);
    hide EncodeRuns, Wrap;
    forall i | 0 <= i < |a|
      ensures a[i] == b[i]
    {
      assert WrapRuns(a)[i] == WrapRuns(b)[i];
      WrapInjective(a[i].lo, b[i].lo);
      WrapInjective(a[i].hi, b[i].hi);
    }
  }

  /** A data packet reaches the receiver. */
  method DoData(snd: Sender, rcv: Receiver, o: Outside, seqno: int, chunk: Chunk, ghost answer: bool, ghost t: int,
                ghost p: P.Params, ghost steps: seq<P.Step>)
    returns (now: Outside, ghost more: seq<P.Step>)
    requires OnRun(snd, rcv, o, p, steps)
    requires var s := P.Run(p, steps); var pkt := P.Data(t, chunk);
      seqno == Wrap(t) && pkt in s.net && P.Young(s.snd, pkt) && P.IsNear(s, pkt)
    modifies rcv, rcv.lossList, rcv.lossList.data1, rcv.lossList.data2, rcv.lossList.next, rcv.lossList.prior,
      rcv.buffer, rcv.buffer.unit
    ensures OnRun(snd, rcv, now, p, more) && Objects(snd, rcv) == old(Objects(snd, rcv))
    ensures more == steps + [P.Deliver(P.Data(t, chunk), answer)]
    ensures P.Run(p, more) == P.Next(p, P.Run(p, steps), P.Deliver(P.Data(t, chunk), answer))
    ensures now == o.(net := Posted(o.net, EncodeOption(P.OnData(P.Run(p, steps).rcv, t, chunk).1), o.newest + 1))
  {
    hide Sender.Valid, Receiver.Valid, Sender.View, Receiver.View, B.SndBuffer.Valid, P.Run, P.Next, Genuine, P.Post,
      P.Inv, Stamped, Wrap, Encode, P.OnData;
    ghost var s, step := P.Run(p, steps), P.Deliver(P.Data(t, chunk), answer);
    P.RunInv(p, steps);
    ArrivalFacts(p, s, t, chunk);
    DataNext(p, s, t, chunk, answer);
    RunMore(p, steps, step);
    GenuineMore(p, o.net, s.net, P.OnData(s.rcv, t, chunk).1, o.newest + 1);
    SameCounters(rcv, s.rcv);
    var r, nak := rcv.ProcessData(seqno, chunk, t);
    now, more := o.(net := Posted(o.net, nak, o.newest + 1)), steps + [step];
  }

  lemma DataNext(p: P.Params, s: P.Sys, t: int, chunk: Chunk, answer: bool)
    requires P.Sensible(p) && P.Data(t, chunk) in s.net && P.Young(s.snd, P.Data(t, chunk))
    ensures var (rcv, out) := P.OnData(s.rcv, t, chunk);
      P.Next(p, s, P.Deliver(P.Data(t, chunk), answer)) == s.(rcv := rcv, net := P.Post(s.net, out))
  {
    hide P.OnData;
  }

  lemma SameCounters(rcv: Receiver, r: P.Rcv)
    requires rcv.Valid() && rcv.View() == r
    ensures rcv.lastAck == r.lastAck && rcv.curr == r.curr && rcv.lastAckAck == r.lastAckAck
  {
  }

  /** A full acknowledgement reaches the sender, which may confirm it. */
  method DoFullAck(snd: Sender, rcv: Receiver, o: Outside, ack: int, window: int, answer: bool, stamp: int,
                   ghost a: int, ghost p: P.Params, ghost steps: seq<P.Step>)
    returns (now: Outside, ghost more: seq<P.Step>)
    requires OnRun(snd, rcv, o, p, steps)
    requires var s := P.Run(p, steps); var pkt := P.FullAck(a, window);
      && ack == Wrap(a) && pkt in s.net && Stamped(p, pkt, stamp)
      && P.Young(s.snd, pkt) && P.IsNear(s, pkt) && P.PacketInv(p, s, pkt)
    modifies snd, snd.buffer, snd.lossList, snd.lossList.data1, snd.lossList.data2, snd.lossList.next
    ensures OnRun(snd, rcv, now, p, more) && Objects(snd, rcv) == old(Objects(snd, rcv))
    ensures more == steps + [P.Deliver(P.FullAck(a, window), answer)]
    ensures P.Run(p, more) == P.Next(p, P.Run(p, steps), P.Deliver(P.FullAck(a, window), answer))
    ensures now == o.(net := Posted(o.net, if answer then Some(WireAckAck(ack)) else None, stamp))
  {
    hide Sender.Valid, Receiver.Valid, Sender.View, Receiver.View, B.SndBuffer.Valid, P.Run, P.Next, Genuine, P.Post,
      P.Inv, Stamped, Wrap, Encode, P.OnFullAck;
    ghost var s, step := P.Run(p, steps), P.Deliver(P.FullAck(a, window), answer);
    P.RunInv(p, steps);
    FullAckNext(p, s, a, window, answer);
    RunMore(p, steps, step);
    ConfirmStamped(p, a, window, stamp);
    GenuineMore(p, o.net, s.net, if answer then Some(P.AckAck(a)) else None, stamp);
    SenderCounters(snd, s.snd);
    snd.ProcessFullAck(ack, window, a);
    now, more := o.(net := Posted(o.net, if answer then Some(WireAckAck(ack)) else None, stamp)), steps + [step];
  }

  lemma FullAckNext(p: P.Params, s: P.Sys, a: int, window: int, answer: bool)
    requires P.Sensible(p) && P.FullAck(a, window) in s.net && P.Young(s.snd, P.FullAck(a, window))
    ensures P.Next(p, s, P.Deliver(P.FullAck(a, window), answer))
      == s.(snd := P.OnFullAck(s.snd, a, window), net := P.Post(s.net, if answer then Some(P.AckAck(a)) else None))
    ensures P.OnFullAck(s.snd, a, window).curr == s.snd.curr
  {
  }

  lemma ConfirmStamped(p: P.Params, a: int, window: int, stamp: int)
    requires Stamped(p, P.FullAck(a, window), stamp)
    ensures Stamped(p, P.AckAck(a), stamp) && Encode(P.AckAck(a)) == WireAckAck(Wrap(a))
  {
  }

  lemma SenderCounters(snd: Sender, s: P.Snd)
    requires snd.Valid() && snd.View() == s
    ensures snd.lastAck == s.lastAck && snd.curr == s.curr && snd.lastDataAck == s.lastDataAck
  {
  }

  /** A lite acknowledgement reaches the sender. */
  method DoLiteAck(snd: Sender, rcv: Receiver, o: Outside, ack: int, ghost answer: bool, ghost a: int,
                   ghost p: P.Params, ghost steps: seq<P.Step>)
    returns (now: Outside, ghost more: seq<P.Step>)
    requires OnRun(snd, rcv, o, p, steps)
    requires var s := P.Run(p, steps); var pkt := P.LiteAck(a);
      ack == Wrap(a) && pkt in s.net && P.Young(s.snd, pkt) && P.IsNear(s, pkt)
    modifies snd
    ensures OnRun(snd, rcv, now, p, more) && Objects(snd, rcv) == old(Objects(snd, rcv))
    ensures more == steps + [P.Deliver(P.LiteAck(a), answer)]
    ensures P.Run(p, more) == P.Next(p, P.Run(p, steps), P.Deliver(P.LiteAck(a), answer))
    ensures now == o
  {
    hide Sender.Valid, Receiver.Valid, Sender.View, Receiver.View, B.SndBuffer.Valid, P.Run, P.Next, Genuine, P.Post,
      P.Inv, Stamped, Wrap, Encode, P.OnLiteAck;
    ghost var s, step := P.Run(p, steps), P.Deliver(P.LiteAck(a), answer);
    LiteAckNext(p, s, a, answer);
    RunMore(p, steps, step);
    SenderCounters(snd, s.snd);
    snd.ProcessLiteAck(ack, a);
    now, more := o, steps + [step];
  }

  lemma LiteAckNext(p: P.Params, s: P.Sys, a: int, answer: bool)
    requires P.Sensible(p) && P.LiteAck(a) in s.net && P.Young(s.snd, P.LiteAck(a))
    ensures P.Next(p, s, P.Deliver(P.LiteAck(a), answer)) == s.(snd := P.OnLiteAck(s.snd, a))
    ensures P.OnLiteAck(s.snd, a).curr == s.snd.curr
  {
  }

  /** A loss report reaches the sender. */
  method DoNak(snd: Sender, rcv: Receiver, o: Outside, words: seq<int>, ghost answer: bool, ghost runs: seq<Node>,
               ghost p: P.Params, ghost steps: seq<P.Step>)
    returns (now: Outside, ghost more: seq<P.Step>)
    requires OnRun(snd, rcv, o, p, steps)
    requires var s := P.Run(p, steps); var pkt := P.Nak(runs);
      && words == EncodeRuns(runs) && pkt in s.net
      && P.Young(s.snd, pkt) && P.IsNear(s, pkt) && P.PacketInv(p, s, pkt)
    modifies snd, snd.lossList, snd.lossList.data1, snd.lossList.data2, snd.lossList.next
    ensures OnRun(snd, rcv, now, p, more) && Objects(snd, rcv) == old(Objects(snd, rcv))
    ensures more == steps + [P.Deliver(P.Nak(runs), answer)]
    ensures P.Run(p, more) == P.Next(p, P.Run(p, steps), P.Deliver(P.Nak(runs), answer))
    ensures now == o
  {
    hide Sender.Valid, Receiver.Valid, Sender.View, Receiver.View, B.SndBuffer.Valid, P.Run, P.Next, Genuine, P.Post,
      P.Inv, Stamped, Wrap, Encode, P.OnNak, EncodeRuns;
    ghost var s, step := P.Run(p, steps), P.Deliver(P.Nak(runs), answer);
    P.RunInv(p, steps);
    NakNext(p, s, runs, answer);
    RunMore(p, steps, step);
    SenderCounters(snd, s.snd);
    EncodedConveys(runs);
    snd.ProcessNak(words, runs);
    now, more := o, steps + [step];
  }

  lemma NakNext(p: P.Params, s: P.Sys, runs: seq<Node>, answer: bool)
    requires P.Sensible(p) && P.Inv(p, s) && P.Nak(runs) in s.net && P.Young(s.snd, P.Nak(runs))
    ensures P.Next(p, s, P.Deliver(P.Nak(runs), answer)) == s.(snd := P.OnNak(s.snd, runs))
    ensures P.OnNak(s.snd, runs).curr == s.snd.curr
  {
    assert P.PacketInv(p, s, P.Nak(runs));
    P.NakSndInv(p, s.snd, s.chunks, runs);
    hide P.OnNak, P.Inv;
  }

  /** A confirmation reaches the receiver. */
  method DoAckAck(snd: Sender, rcv: Receiver, o: Outside, ack: int, ghost answer: bool, ghost a: int,
                  ghost p: P.Params, ghost steps: seq<P.Step>)
    returns (now: Outside, ghost more: seq<P.Step>)
    requires OnRun(snd, rcv, o, p, steps)
    requires var s := P.Run(p, steps); var pkt := P.AckAck(a);
      ack == Wrap(a) && pkt in s.net && P.Young(s.snd, pkt) && P.IsNear(s, pkt)
    modifies rcv
    ensures OnRun(snd, rcv, now, p, more) && Objects(snd, rcv) == old(Objects(snd, rcv))
    ensures more == steps + [P.Deliver(P.AckAck(a), answer)]
    ensures P.Run(p, more) == P.Next(p, P.Run(p, steps), P.Deliver(P.AckAck(a), answer))
    ensures now == o
  {
    hide Sender.Valid, Receiver.Valid, Sender.View, Receiver.View, B.SndBuffer.Valid, P.Run, P.Next, Genuine, P.Post,
      P.Inv, Stamped, Wrap, Encode, P.OnAckAck;
    ghost var s, step := P.Run(p, steps), P.Deliver(P.AckAck(a), answer);
    AckAckNext(p, s, a, answer);
    RunMore(p, steps, step);
    SameCounters(rcv, s.rcv);
    rcv.ProcessAckAck(ack, a);
    now, more := o, steps + [step];
  }

  lemma AckAckNext(p: P.Params, s: P.Sys, a: int, answer: bool)
    requires P.Sensible(p) && P.AckAck(a) in s.net && P.Young(s.snd, P.AckAck(a))
    ensures P.Next(p, s, P.Deliver(P.AckAck(a), answer)) == s.(rcv := P.OnAckAck(s.rcv, a))
  {
    hide P.OnAckAck;
  }

  lemma OnRunFacts(snd: Sender, rcv: Receiver, o: Outside, p: P.Params, steps: seq<P.Step>)
    requires OnRun(snd, rcv, o, p, steps)
    ensures R.InRange(p) && Matches(p, o, P.Run(p, steps))
  {
  }

  lemma Appended<T>(a: seq<T>, b: seq<T>)
    ensures a <= a + b && (a + b)[|a|..] == b
  {
  }

  lemma Delivered(p: P.Params, o: Outside, s: P.Sys, letter: Letter, answer: bool, pkt: P.Packet, now: Outside)
    requires P.Sensible(p) && Deliverable(o, letter, p.window) && Means(p, s, letter, pkt)
    requires match pkt
      case Data(t, chunk) => now == o.(net := Posted(o.net, EncodeOption(P.OnData(s.rcv, t, chunk).1), o.newest + 1))
      case FullAck(a, window) =>
        now == o.(net := Posted(o.net, if answer then Some(WireAckAck(Wrap(a))) else None, letter.stamp))
      case _ => now == o
    ensures Stands(p, o, s, Arrive(letter, answer), [P.Deliver(pkt, answer)], now)
  {
    hide P.OnData, Stamped, P.Young, EncodeRuns, Wrap;
  }

  /** A letter reaches its addressee. */
  method DoDeliver(snd: Sender, rcv: Receiver, o: Outside, letter: Letter, answer: bool, ghost pkt: P.Packet,
                   ghost p: P.Params, ghost steps: seq<P.Step>)
    returns (now: Outside, ghost more: seq<P.Step>)
    requires OnRun(snd, rcv, o, p, steps) && Deliverable(o, letter, p.window)
    requires var s := P.Run(p, steps); Means(p, s, letter, pkt) && P.IsNear(s, pkt) && P.PacketInv(p, s, pkt)
    modifies Objects(snd, rcv)
    ensures OnRun(snd, rcv, now, p, more) && Objects(snd, rcv) == old(Objects(snd, rcv))
    ensures more == steps + [P.Deliver(pkt, answer)]
    ensures P.Run(p, more) == P.Next(p, P.Run(p, steps), P.Deliver(pkt, answer))
    ensures Stands(p, o, P.Run(p, steps), Arrive(letter, answer), [P.Deliver(pkt, answer)], now)
  {
    OnRunFacts(snd, rcv, o, p, steps);
    hide OnRun, P.Run, P.Next, P.OnData, Genuine, Stamped, Wrap, P.Young, P.IsNear, P.PacketInv, EncodeRuns, Stands,
      Posted;
    match letter.wire {
      case WireData(seqno, chunk) => now, more := DoData(snd, rcv, o, seqno, chunk, answer, pkt.seqno, p, steps);
      case WireAck(ack, w) => now, more := DoFullAck(snd, rcv, o, ack, w, answer, letter.stamp, pkt.ack, p, steps);
      case WireLiteAck(ack) => now, more := DoLiteAck(snd, rcv, o, ack, answer, pkt.ack, p, steps);
      case WireNak(words) => now, more := DoNak(snd, rcv, o, words, answer, pkt.runs, p, steps);
      case WireAckAck(ack) => now, more := DoAckAck(snd, rcv, o, ack, answer, pkt.ack, p, steps);
    }
    Delivered(p, o, P.Run(p, steps), letter, answer, pkt, now);
  }

  /** The network delivers a letter, if it has it and it is young enough. */
  method DoArrive(snd: Sender, rcv: Receiver, o: Outside, letter: Letter, answer: bool, ghost p: P.Params,
                  ghost steps: seq<P.Step>, window: int)
    returns (now: Outside, ghost more: seq<P.Step>)
    requires OnRun(snd, rcv, o, p, steps)
    requires window == p.window
    modifies Objects(snd, rcv)
    ensures OnRun(snd, rcv, now, p, more) && Objects(snd, rcv) == old(Objects(snd, rcv))
    ensures steps <= more && Stands(p, o, P.Run(p, steps), Arrive(letter, answer), more[|steps|..], now)
  {
    hide OnRun, P.Run, Genuine, P.Inv, Stamped, P.IsNear, P.PacketInv, Objects, Means, Reply, P.PackData, P.TurnSteps;
    OnRunFacts(snd, rcv, o, p, steps);
    P.RunInv(p, steps);
    now, more := o, steps;
    if Deliverable(o, letter, window) {
      ghost var pkt := LetterStands(p, P.Run(p, steps), o.net, letter);
      hide Stands;
      now, more := DoDeliver(snd, rcv, o, letter, answer, pkt, p, steps);
      Appended(steps, [P.Deliver(pkt, answer)]);
    }
  }

  // ---------- whole transfers ----------

  /** What happens on the sending side. */
  method DoSending(snd: Sender, rcv: Receiver, o: Outside, event: Event, ghost p: P.Params, ghost steps: seq<P.Step>)
    returns (now: Outside, ghost more: seq<P.Step>)
    requires OnRun(snd, rcv, o, p, steps) && (event.Write? || event.Turn? || event.Expire?)
    modifies Objects(snd, rcv)
    ensures OnRun(snd, rcv, now, p, more) && fresh(Objects(snd, rcv) - old(Objects(snd, rcv)))
    ensures steps <= more && Stands(p, o, P.Run(p, steps), event, more[|steps|..], now)
  {
    hide OnRun, P.Run, P.Next, P.PackData, P.TurnSteps, P.Post, Stands;
    match event
    case Write(data) => now, more := DoWrite(snd, rcv, o, data, p, steps);
    case Turn(cwnd) => now, more := DoTurn(snd, rcv, o, cwnd, p, steps);
    case Expire => now, more := DoExpire(snd, rcv, o, p, steps);
  }

  /** What happens on the receiving side. */
  method DoReceiving(snd: Sender, rcv: Receiver, o: Outside, event: Event, ghost p: P.Params, ghost steps: seq<P.Step>)
    returns (now: Outside, ghost more: seq<P.Step>)
    requires OnRun(snd, rcv, o, p, steps) && (event.Acknowledge? || event.ReadOut?)
    modifies Objects(snd, rcv)
    ensures OnRun(snd, rcv, now, p, more) && fresh(Objects(snd, rcv) - old(Objects(snd, rcv)))
    ensures steps <= more && Stands(p, o, P.Run(p, steps), event, more[|steps|..], now)
  {
    hide OnRun, P.Run, P.Next, P.PackData, P.TurnSteps, P.Post, Stands;
    match event
    case Acknowledge(lite, due) => now, more := DoAcknowledge(snd, rcv, o, lite, due, p, steps);
    case ReadOut(len) => now, more := DoReadOut(snd, rcv, o, len, p, steps);
  }

  /** One event, whatever it is, takes the endpoints on as it should. */
  method Perform(snd: Sender, rcv: Receiver, o: Outside, event: Event, ghost p: P.Params, ghost steps: seq<P.Step>,
                 window: int)
    returns (now: Outside, ghost part: seq<P.Step>)
    requires OnRun(snd, rcv, o, p, steps)
    requires window == p.window
    modifies Objects(snd, rcv)
    ensures OnRun(snd, rcv, now, p, steps + part) && fresh(Objects(snd, rcv) - old(Objects(snd, rcv)))
    ensures Stands(p, o, P.Run(p, steps), event, part, now)
  {
    hide OnRun, P.Run, Stands, Objects;
    ghost var more;
    match event {
      case Arrive(letter, answer) => now, more := DoArrive(snd, rcv, o, letter, answer, p, steps, window);
      case Acknowledge(_, _) => now, more := DoReceiving(snd, rcv, o, event, p, steps);
      case ReadOut(_) => now, more := DoReceiving(snd, rcv, o, event, p, steps);
      case _ => now, more := DoSending(snd, rcv, o, event, p, steps);
    }
    part := more[|steps|..];
    assert steps + part == more;
  }

  /** The events of a script, one after the other. */
  method Play(snd: Sender, rcv: Receiver, o: Outside, script: seq<Event>, ghost p: P.Params, ghost steps: seq<P.Step>,
              window: int)
    returns (now: Outside, ghost more: seq<P.Step>)
    requires OnRun(snd, rcv, o, p, steps)
    requires window == p.window
    modifies Objects(snd, rcv)
    ensures OnRun(snd, rcv, now, p, more) && Follows(p, o, steps, script, now, more)
    decreases |script|
  {
    OnRunFacts(snd, rcv, o, p, steps);
    hide OnRun, P.Run, Objects, Stands;
    now, more := o, steps;
    if script != [] {
      ghost var part;
      now, part := Perform(snd, rcv, o, script[0], p, steps, window);
      now, more := Play(snd, rcv, now, script[1..], p, steps + part, window);
    }
  }

  lemma EventDecides(p: P.Params, o: Outside, s: P.Sys, event: Event, part: seq<P.Step>, now: Outside,
                     part': seq<P.Step>, now': Outside)
    requires R.InRange(p) && P.Inv(p, s) && Stands(p, o, s, event, part, now) && Stands(p, o, s, event, part', now')
    ensures part == part' && now == now'
  {
    hide P.Inv, Means, Reply, P.PackData, P.Next, Posted;
    if event.Arrive? && Deliverable(o, event.letter, p.window) {
      OneMeaning(p, s, event.letter, part[0].pkt, part'[0].pkt);
      assert part == [part[0]] && part' == [part'[0]];
    }
  }

  /** Nothing but the script decides where the protocol is led. */
  lemma {:induction false} ScriptDecides(p: P.Params, o: Outside, steps: seq<P.Step>, script: seq<Event>,
                                         now: Outside, more: seq<P.Step>, now': Outside, more': seq<P.Step>)
    requires R.InRange(p) && Follows(p, o, steps, script, now, more) && Follows(p, o, steps, script, now', more')
    ensures now == now' && more == more'
    decreases |script|
  {
    if script != [] {
      P.RunInv(p, steps);
      hide P.Run, P.Inv, Stands;
      var part, mid :|
        Stands(p, o, P.Run(p, steps), script[0], part, mid)
        && Follows(p, mid, steps + part, script[1..], now, more);
      var part', mid' :|
        Stands(p, o, P.Run(p, steps), script[0], part', mid')
        && Follows(p, mid', steps + part', script[1..], now', more');
      EventDecides(p, o, P.Run(p, steps), script[0], part, mid, part', mid');
      ScriptDecides(p, mid, steps + part, script[1..], now, more, now', more');
    }
  }

  /** Opens a connection between a new sender and a new receiver. */
  method Open(isn: int, window: int, mss: int, rcvBufSize: int, sndBufSize: int)
    returns (snd: Sender, rcv: Receiver, o: Outside, ghost p: P.Params)
    requires IsSeqNo(isn) && mss > 0 && 2 <= rcvBufSize <= window && 2 * window < SEQ_TH
    ensures p == P.Params(isn, mss, window, rcvBufSize, sndBufSize)
    ensures OnRun(snd, rcv, o, p, []) && fresh(Objects(snd, rcv)) && o == Outside(isn - 1, {}, [], [])
  {
    hide Sender.Valid, Receiver.Valid, Receiver.View, Sender.View, B.SndBuffer.Valid, B.SndBuffer.View,
      RcvLossList.Contents, SndLossList.Contents, Blank, Wrap;
    p := P.Params(isn, mss, window, rcvBufSize, sndBufSize);
    snd := new Sender(isn, window, mss, sndBufSize);
    rcv := new Receiver(isn, window, rcvBufSize);
    o := Outside(isn - 1, {}, [], []);
  }

  /** The endpoints on their 31-bit numbers go through exactly the steps of the protocol that the script stands for,
      event by event; and what the receiving application has got is a prefix of what the sending one has handed over. */
  method Transfer(isn: int, window: int, mss: int, rcvBufSize: int, sndBufSize: int, script: seq<Event>)
    returns (end: Outside, ghost steps: seq<P.Step>)
    requires IsSeqNo(isn) && mss > 0 && 2 <= rcvBufSize <= window && 2 * window < SEQ_TH
    ensures end.received <= end.sent
    ensures var p := P.Params(isn, mss, window, rcvBufSize, sndBufSize);
      && Follows(p, Outside(isn - 1, {}, [], []), [], script, end, steps)
      && Matches(p, end, P.Run(p, steps))
  {
    var snd, rcv, o;
    ghost var p;
    snd, rcv, o, p := Open(isn, window, mss, rcvBufSize, sndBufSize);
    hide OnRun, P.Run, Objects, Follows;
    end, steps := Play(snd, rcv, o, script, p, [], window);
    P.StreamSafety(p, steps);
    RunGives(snd, rcv, end, p, steps);
  }

  lemma RunGives(snd: Sender, rcv: Receiver, o: Outside, p: P.Params, steps: seq<P.Step>)
    requires OnRun(snd, rcv, o, p, steps)
    ensures Matches(p, o, P.Run(p, steps))
  {
  }
}
