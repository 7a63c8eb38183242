/** What each step of the protocol does in every reachable state, said by packets, slots and windows: the other account
    of the steps that the Protocol module computes. */
module ProtocolLaws {
  import opened Basics
  import opened Packets
  import opened Intervals
  import opened RcvBuffers
  import opened SeqNo
  import opened Protocol
  import S = SndBuffers

  // ---------- the laws ----------

  /** Of the data handed over as much is taken as the send buffer has room for, cut into full packets and a rest that
      carry the number of the next message. */
  ghost predicate SendLaw(p: Params, s: Sys, data: seq<byte>, t: Sys)
    requires p.mss > 0
  {
    var queued := p.isn + |s.chunks| - s.snd.lastDataAck;
    var room := if p.sndLimit <= queued then 0 else (p.sndLimit - queued) * p.mss;
    var n := if room < |data| then room else |data|;
    && t == s.(sent := t.sent, chunks := t.chunks, snd := s.snd.(buf := t.snd.buf))
    && 0 <= n <= |data| && t.sent == s.sent + data[..n]
    && s.chunks <= t.chunks && Flatten(t.chunks[|s.chunks|..]) == data[..n]
    && S.Full(t.chunks[|s.chunks|..], p.mss)
    && S.Labelled(t.chunks[|s.chunks|..], s.snd.buf.nextMsgNo, false, true)
  }

  /** The smallest lost number is taken off the list, unless one is in hand already. */
  ghost predicate TakeLossLaw(s: Sys, t: Sys) {
    if s.snd.loss == {} || s.snd.lost.Some? then t == s
    else
      && t.snd.lost.Some? && t.snd.lost.value in s.snd.loss && (forall x | x in s.snd.loss :: t.snd.lost.value <= x)
      && t == s.(snd := s.snd.(lost := t.snd.lost, loss := s.snd.loss - {t.snd.lost.value}))
  }

  /** The number in hand is resent exactly when its packet has not been given up meanwhile, with the packet first sent
      under it; it leaves the hand in any case. */
  ghost predicate ResendLaw(p: Params, s: Sys, t: Sys) {
    if s.snd.lost.None? then t == s
    else
      var x := s.snd.lost.value;
      && 0 <= x - p.isn < |s.chunks|
      && t == s.(snd := s.snd.(lost := None), net := t.net)
      && t.net == if x >= s.snd.lastDataAck then s.net + {Data(x, s.chunks[x - p.isn])} else s.net
  }

  /** A new packet may go out: the window granted, the congestion window and the queue allow it. */
  ghost predicate MaySend(p: Params, s: Sys, cwnd: int) {
    var outstanding := s.snd.curr + 1 - s.snd.lastAck;
    outstanding < s.snd.window && outstanding < cwnd && s.snd.curr + 1 < p.isn + |s.chunks|
  }

  /** Then exactly the packet after the last one sent does, and otherwise nothing happens. */
  ghost predicate TransmitLaw(p: Params, s: Sys, cwnd: int, t: Sys) {
    if MaySend(p, s, cwnd) then
      var x := s.snd.curr + 1;
      && 0 <= x - p.isn < |s.chunks| && t.net == s.net + {Data(x, s.chunks[x - p.isn])}
      && t == s.(snd := s.snd.(curr := x, buf := s.snd.buf.(cur := s.snd.buf.cur + 1)), net := t.net)
    else t == s
  }

  /** A timeout makes all that is unacknowledged lost when nothing is listed as lost, and nothing otherwise. */
  ghost predicate TimeoutLaw(s: Sys, t: Sys) {
    && t == s.(snd := s.snd.(loss := t.snd.loss))
    && (s.snd.loss != {} ==> t.snd.loss == s.snd.loss)
    && (s.snd.loss == {} ==> forall x :: x in t.snd.loss <==> s.snd.lastAck <= x <= s.snd.curr)
  }

  /** Packet x finds a free slot in the receive buffer, of which one always stays empty. */
  ghost predicate Welcome(p: Params, s: Sys, x: int) {
    s.rcv.lastAck <= x < ReadPoint(s.rcv) + p.rcvSize - 1 && !Filled(s.rcv, x)
  }

  /** A packet that is welcome fills its slot; the numbers it skips become lost, and are reported at once as one
      interval; its own number does not stay lost. Any other packet changes nothing that is listed or held. */
  ghost predicate DataLaw(p: Params, s: Sys, x: int, chunk: Chunk, t: Sys) {
    var was, now := s.rcv, t.rcv;
    var stored := Welcome(p, s, x);
    && t == s.(rcv := was.(curr := now.curr, loss := now.loss, buf := now.buf), net := t.net)
    && now.buf.acked == was.buf.acked && now.buf.notch == was.buf.notch
    && (forall y :: Filled(now, y) <==> Filled(was, y) || (stored && y == x))
    && (stored ==> 0 <= x - ReadPoint(now) < |now.buf.cells| && now.buf.cells[x - ReadPoint(now)] == Held(chunk, 1))
    && now.curr == (if stored && x > was.curr then x else was.curr)
    && (forall y :: y in now.loss <==> if stored then (y in was.loss && y != x) || was.curr < y < x else y in was.loss)
    && t.net == if stored && x > was.curr + 1 then s.net + {Nak([Node(was.curr + 1, x - 1)])} else s.net
  }

  /** A full acknowledgement moves what is acknowledged and given up on to its number, never back; it grants its window
      unless a newer one has been seen; and it may be confirmed. */
  ghost predicate FullAckLaw(s: Sys, ack: int, window: int, answer: bool, t: Sys) {
    var was, now := s.snd, t.snd;
    && t == s.(snd := now, net := if answer then s.net + {AckAck(ack)} else s.net)
    && now.lastAck == (if ack > was.lastAck then ack else was.lastAck)
    && now.window == (if ack >= was.lastAck then window else was.window)
    && now.lastDataAck == (if ack > was.lastDataAck then ack else was.lastDataAck)
    && (forall x :: x in now.loss <==> x in was.loss && x >= now.lastDataAck)
    && now.curr == was.curr && now.lost == was.lost && now.buf.nextMsgNo == was.buf.nextMsgNo && !now.broken
  }

  /** A lite acknowledgement moves what is acknowledged on and takes as much off the window, and nothing else: not the
      packets held. */
  ghost predicate LiteAckLaw(s: Sys, ack: int, t: Sys) {
    var lastAck := if ack > s.snd.lastAck then ack else s.snd.lastAck;
    t == s.(snd := s.snd.(lastAck := lastAck, window := s.snd.lastAck + s.snd.window - lastAck))
  }

  ghost predicate Names(runs: seq<Node>, x: int) {
    exists i :: 0 <= i < |runs| && runs[i].lo <= x <= runs[i].hi
  }

  /** A loss report adds the numbers it names that are not acknowledged. */
  ghost predicate NakLaw(s: Sys, runs: seq<Node>, t: Sys) {
    && t == s.(snd := s.snd.(loss := t.snd.loss))
    && (forall x :: x in t.snd.loss <==>
          x in s.snd.loss || (x >= s.snd.lastAck && Names(runs, x)))
  }

  /** A confirmation is taken when it looks newer than the one known, as all do that are newer by less than the
      comparison threshold. */
  ghost predicate AckAckLaw(s: Sys, ack: int, t: Sys) {
    && t == s.(rcv := s.rcv.(lastAckAck := t.rcv.lastAckAck))
    && t.rcv.lastAckAck == (if Newer(ack, s.rcv.lastAckAck) then ack else s.rcv.lastAckAck)
    && (-SEQ_TH < ack - s.rcv.lastAckAck < SEQ_TH ==>
          t.rcv.lastAckAck == if ack > s.rcv.lastAckAck then ack else s.rcv.lastAckAck)
  }

  ghost predicate DeliverLaw(p: Params, s: Sys, pkt: Packet, answer: bool, t: Sys) {
    if pkt !in s.net || !Young(s.snd, pkt) then t == s
    else
      match pkt
      case Data(x, chunk) => DataLaw(p, s, x, chunk, t)
      case FullAck(ack, window) => FullAckLaw(s, ack, window, answer, t)
      case LiteAck(ack) => LiteAckLaw(s, ack, t)
      case Nak(runs) => NakLaw(s, runs, t)
      case AckAck(ack) => AckAckLaw(s, ack, t)
  }

  /** All packets before m have arrived, and packet m has not. */
  ghost predicate IsFirstMissing(r: Rcv, m: int) {
    r.lastAck <= m && !Filled(r, m) && forall x | r.lastAck <= x < m :: Filled(r, x)
  }

  /** What is acknowledged is the number missing first: in a lite acknowledgement without more ado; in a full one, which
      also moves the acknowledged point, with the free slots, two at least, if it is new or due and looks newer than the
      one confirmed. */
  ghost predicate AcknowledgeLaw(p: Params, s: Sys, lite: bool, due: bool, t: Sys) {
    exists m ::
      && IsFirstMissing(s.rcv, m)
      && var advance := Wrap(m) != Wrap(s.rcv.lastAckAck) && !lite && (m > s.rcv.lastAck || due);
      && t == s.(rcv := s.rcv.(lastAck := if advance then m else s.rcv.lastAck, buf := t.rcv.buf), net := t.net)
      && t.rcv.buf.cells == s.rcv.buf.cells && t.rcv.buf.notch == s.rcv.buf.notch
      && ReadPoint(t.rcv) == ReadPoint(s.rcv)
      && t.net == s.net + Acks(p, s, lite, due, m)
  }

  ghost function Acks(p: Params, s: Sys, lite: bool, due: bool, m: int): set<Packet> {
    var free := p.rcvSize - 1 - (m - ReadPoint(s.rcv));
    if Wrap(m) == Wrap(s.rcv.lastAckAck) then {}
    else if lite then {LiteAck(m)}
    else if (m > s.rcv.lastAck || due) && Newer(m, s.rcv.lastAckAck) then {FullAck(m, if free < 2 then 2 else free)}
    else {}
  }

  /** A repeated report names intervals of lost numbers only. */
  ghost predicate ReportLaw(s: Sys, runs: seq<Node>, t: Sys) {
    var honest := forall i | 0 <= i < |runs| ::
      runs[i].lo <= runs[i].hi && forall x | runs[i].lo <= x <= runs[i].hi :: x in s.rcv.loss;
    t == if honest then s.(net := s.net + {Nak(runs)}) else s
  }

  /** A read hands out the next bytes that were sent, as many as are acknowledged and asked for. */
  ghost predicate ReadLaw(p: Params, s: Sys, len: nat, t: Sys) {
    0 <= s.rcv.lastAck - p.isn <= |s.chunks| &&
    var acked := Flatten(s.chunks[..s.rcv.lastAck - p.isn]);
    |s.received| <= |acked| &&
    var k := if len < |acked| - |s.received| then len else |acked| - |s.received|;
    && t == s.(rcv := s.rcv.(buf := t.rcv.buf), received := acked[..|s.received| + k])
    && s.received <= t.received
    && (forall x | x >= s.rcv.lastAck :: Filled(t.rcv, x) <==> Filled(s.rcv, x))
  }

  ghost predicate Lawful(p: Params, s: Sys, step: Step, t: Sys)
    requires p.mss > 0
  {
    match step
    case AppSend(data) => SendLaw(p, s, data, t)
    case TakeLoss => TakeLossLaw(s, t)
    case Resend => ResendLaw(p, s, t)
    case Transmit(cwnd) => TransmitLaw(p, s, cwnd, t)
    case Timeout => TimeoutLaw(s, t)
    case Deliver(pkt, answer) => DeliverLaw(p, s, pkt, answer, t)
    case Acknowledge(lite, due) => AcknowledgeLaw(p, s, lite, due, t)
    case ReportLoss(runs) => ReportLaw(s, runs, t)
    case AppRecv(len) => ReadLaw(p, s, len, t)
  }

  // ---------- the sender keeps them ----------

  lemma Sends(p: Params, s: Sys, data: seq<byte>)
    requires Sensible(p) && Inv(p, s)
    ensures SendLaw(p, s, data, Next(p, s, AppSend(data)))
  {
    assert |s.snd.buf.blocks| == p.isn + |s.chunks| - s.snd.lastDataAck;
    hide Inv, S.Chop, Flatten, S.Full, S.Labelled;
    var t := Next(p, s, AppSend(data));
    var (_, n) := Send(s.snd, data, p.mss, p.sndLimit);
    Multiple(p.sndLimit - |s.snd.buf.blocks|, p.mss);
    if 0 < n <= |data| {
      var more := S.Chop(data[..n], p.mss, s.snd.buf.nextMsgNo, false, true);
      S.ChopFlatten(data[..n], p.mss, s.snd.buf.nextMsgNo, false, true);
      S.ChopSizes(data[..n], p.mss, s.snd.buf.nextMsgNo, false, true);
      assert t.chunks[|s.chunks|..] == more;
    } else {
      assert t.chunks[|s.chunks|..] == [];
      NoBytes();
      NoPackets(p.mss, s.snd.buf.nextMsgNo);
    }
  }

  lemma NoBytes()
    ensures Flatten([]) == []
  {
  }

  lemma NoPackets(mss: int, msgNo: bv32)
    ensures S.Full([], mss) && S.Labelled([], msgNo, false, true)
  {
  }

  lemma Takes(p: Params, s: Sys)
    requires Sensible(p)
    ensures TakeLossLaw(s, Next(p, s, TakeLoss))
  {
  }

  lemma Resends(p: Params, s: Sys)
    requires Sensible(p) && Inv(p, s)
    ensures ResendLaw(p, s, Next(p, s, Resend))
  {
    assert SndInv(p, s.snd, s.chunks);
    hide Inv;
  }

  lemma Transmits(p: Params, s: Sys, cwnd: int)
    requires Sensible(p) && Inv(p, s)
    ensures TransmitLaw(p, s, cwnd, Next(p, s, Transmit(cwnd)))
  {
    assert SndInv(p, s.snd, s.chunks);
    hide Inv;
  }

  lemma Expires(p: Params, s: Sys)
    requires Sensible(p) && Inv(p, s)
    ensures TimeoutLaw(s, Next(p, s, Timeout))
  {
    assert SndInv(p, s.snd, s.chunks);
    hide Inv;
  }

  // ---------- every delivery keeps them ----------

  /** Storing the packet that is welcome fills its slot with it. */
  lemma Stores(p: Params, r: Rcv, chunks: seq<Chunk>, x: int, chunk: Chunk)
    requires RcvInv(p, r, chunks) && p.isn <= x < p.isn + |chunks| && chunk == chunks[x - p.isn]
    requires 0 <= x - r.lastAck < AvailSize(r.buf) && !Filled(r, x)
    ensures var now := OnData(r, x, chunk).0;
      && now == r.(curr := now.curr, loss := LossAfter(r, x), buf := now.buf)
      && now.curr == (if x > r.curr then x else r.curr)
      && now.buf.acked == r.buf.acked && now.buf.notch == r.buf.notch
      && (forall y :: Filled(now, y) <==> Filled(r, y) || y == x)
      && 0 <= x - ReadPoint(now) < |now.buf.cells| && now.buf.cells[x - ReadPoint(now)] == Held(chunk, 1)
  {
    StoreFills(p, r, chunks, x, chunk);
    hide RcvInv, Readable;
  }

  /** A packet that is there already leaves all slots as they are. */
  lemma KeepsAll(r: Rcv, x: int, chunk: Chunk)
    requires 0 <= x - r.lastAck < AvailSize(r.buf) && Filled(r, x)
    ensures var now := OnData(r, x, chunk).0;
      && OnData(r, x, chunk).1 == None && now == r.(buf := now.buf)
      && now.buf == r.buf.(maxPos := now.buf.maxPos)
  {
  }

  lemma Listed(p: Params, r: Rcv, chunks: seq<Chunk>, x: int)
    requires RcvInv(p, r, chunks)
    ensures forall y :: y in LossAfter(r, x) <==> (y in r.loss && y != x) || r.curr < y < x
  {
    assert forall y | y in r.loss :: y <= r.curr;
    hide RcvInv;
  }

  lemma Announces(r: Rcv, x: int, chunk: Chunk)
    requires 0 <= x - r.lastAck < AvailSize(r.buf) && !Filled(r, x)
    ensures OnData(r, x, chunk).1 == if x > r.curr + 1 then Some(Nak([Node(r.curr + 1, x - 1)])) else None
  {
  }

  lemma Refuses(r: Rcv, x: int, chunk: Chunk)
    requires !(0 <= x - r.lastAck < AvailSize(r.buf))
    ensures OnData(r, x, chunk) == (r, None)
  {
  }

  lemma Arrives(p: Params, s: Sys, x: int, chunk: Chunk, answer: bool)
    requires Sensible(p) && Inv(p, s) && Data(x, chunk) in s.net && Young(s.snd, Data(x, chunk))
    ensures DataLaw(p, s, x, chunk, Next(p, s, Deliver(Data(x, chunk), answer)))
  {
    assert PacketInv(p, s, Data(x, chunk));
    assert RcvInv(p, s.rcv, s.chunks) && |s.rcv.buf.cells| == p.rcvSize;
    hide Inv, RcvInv, Young, OnData, LossAfter;
    if 0 <= x - s.rcv.lastAck < AvailSize(s.rcv.buf) {
      if Filled(s.rcv, x) {
        KeepsAll(s.rcv, x, chunk);
        hide OnData;
      } else {
        Stores(p, s.rcv, s.chunks, x, chunk);
        Listed(p, s.rcv, s.chunks, x);
        Announces(s.rcv, x, chunk);
        hide Filled;
      }
    } else {
      Refuses(s.rcv, x, chunk);
    }
  }

  lemma Acknowledged(p: Params, s: Sys, ack: int, window: int, answer: bool)
    requires Sensible(p) && Inv(p, s) && FullAck(ack, window) in s.net && Young(s.snd, FullAck(ack, window))
    ensures FullAckLaw(s, ack, window, answer, Next(p, s, Deliver(FullAck(ack, window), answer)))
  {
    assert PacketInv(p, s, FullAck(ack, window));
    assert SndInv(p, s.snd, s.chunks) && s.rcv.lastAck <= s.snd.curr + 1;
    hide Inv, Young, RcvInv;
  }

  lemma AcknowledgedLightly(p: Params, s: Sys, ack: int, answer: bool)
    requires Sensible(p) && LiteAck(ack) in s.net && Young(s.snd, LiteAck(ack))
    ensures LiteAckLaw(s, ack, Next(p, s, Deliver(LiteAck(ack), answer)))
  {
  }

  lemma {:induction false} Heeds(p: Params, snd: Snd, runs: seq<Node>)
    requires forall i | 0 <= i < |runs| :: runs[i].lo <= runs[i].hi <= snd.curr
    ensures OnNak(snd, runs) == snd.(loss := OnNak(snd, runs).loss)
    ensures forall x :: x in OnNak(snd, runs).loss <==> x in snd.loss || (x >= snd.lastAck && Names(runs, x))
    decreases |runs|
  {
    if runs != [] {
      Heeds(p, OnLoss(snd, runs[0]), runs[1..]);
      forall x
        ensures Names(runs, x) <==> runs[0].lo <= x <= runs[0].hi || Names(runs[1..], x)
      {
        NamesMore(runs, x);
      }
    }
  }

  lemma NamesMore(runs: seq<Node>, x: int)
    requires runs != []
    ensures Names(runs, x) <==> runs[0].lo <= x <= runs[0].hi || Names(runs[1..], x)
  {
    if Names(runs[1..], x) {
      var i :| 0 <= i < |runs[1..]| && runs[1..][i].lo <= x <= runs[1..][i].hi;
      assert runs[i + 1].lo <= x <= runs[i + 1].hi;
    }
    if Names(runs, x) && !(runs[0].lo <= x <= runs[0].hi) {
      var i :| 0 <= i < |runs| && runs[i].lo <= x <= runs[i].hi;
      assert runs[1..][i - 1].lo <= x <= runs[1..][i - 1].hi;
    }
  }

  lemma Complains(p: Params, s: Sys, runs: seq<Node>, answer: bool)
    requires Sensible(p) && Inv(p, s) && Nak(runs) in s.net && Young(s.snd, Nak(runs))
    ensures NakLaw(s, runs, Next(p, s, Deliver(Nak(runs), answer)))
  {
    assert PacketInv(p, s, Nak(runs));
    assert s.rcv.curr <= s.snd.curr;
    Heeds(p, s.snd, runs);
    hide Inv, Young, Names, OnNak;
  }

  lemma Confirms(p: Params, s: Sys, ack: int, answer: bool)
    requires Sensible(p) && AckAck(ack) in s.net && Young(s.snd, AckAck(ack))
    ensures AckAckLaw(s, ack, Next(p, s, Deliver(AckAck(ack), answer)))
  {
    NewerNear(ack, s.rcv.lastAckAck);
    hide Newer;
  }

  lemma Delivers(p: Params, s: Sys, pkt: Packet, answer: bool)
    requires Sensible(p) && Inv(p, s)
    ensures DeliverLaw(p, s, pkt, answer, Next(p, s, Deliver(pkt, answer)))
  {
    hide Inv, Young, DataLaw, FullAckLaw, LiteAckLaw, NakLaw, AckAckLaw;
    if pkt in s.net && Young(s.snd, pkt) {
      match pkt
      case Data(x, chunk) => Arrives(p, s, x, chunk, answer);
      case FullAck(ack, window) => Acknowledged(p, s, ack, window, answer);
      case LiteAck(ack) => AcknowledgedLightly(p, s, ack, answer);
      case Nak(runs) => Complains(p, s, runs, answer);
      case AckAck(ack) => Confirms(p, s, ack, answer);
    }
  }

  // ---------- the receiver keeps them ----------

  lemma FirstIs(p: Params, r: Rcv, chunks: seq<Chunk>)
    requires RcvInv(p, r, chunks)
    ensures IsFirstMissing(r, FirstMissing(r)) && ReadPoint(r) <= r.lastAck
    ensures AvailSize(r.buf) == p.rcvSize - 1 - r.buf.acked
  {
    BelowFirstMissing(p, r, chunks);
    assert forall x :: x in r.loss <==> r.lastAck <= x <= r.curr && !Filled(r, x);
    assert forall x | Filled(r, x) :: x <= r.curr;
    assert |r.buf.cells| == p.rcvSize;
    hide RcvInv, Filled;
    if r.loss != {} { assert FirstMissing(r) in r.loss; }
  }

  lemma Acknowledges(p: Params, s: Sys, lite: bool, due: bool)
    requires Sensible(p) && Inv(p, s)
    ensures AcknowledgeLaw(p, s, lite, due, Next(p, s, Acknowledge(lite, due)))
  {
    FirstIs(p, s.rcv, s.chunks);
    hide Inv, IsFirstMissing, FirstMissing, Wrap, Newer;
    var m := FirstMissing(s.rcv);
    assert IsFirstMissing(s.rcv, m);
  }

  lemma RepeatsReport(p: Params, s: Sys, runs: seq<Node>)
    requires Sensible(p)
    ensures ReportLaw(s, runs, Next(p, s, ReportLoss(runs)))
  {
  }

  /** Only slots below the acknowledged point are emptied. */
  lemma EmptiesRead(p: Params, r: Rcv, chunks: seq<Chunk>, len: nat)
    requires RcvInv(p, r, chunks)
    ensures forall x | x >= r.lastAck :: Filled(Recv(r, len).0, x) <==> Filled(r, x)
  {
    assert Readable(r.buf);
    hide RcvInv, Readable, Read;
    ReadIsStream(r.buf, len);
    ReadCells(r.buf, len);
    hide Stream;
  }

  lemma HandsOut(r: Rcv, len: nat)
    requires Readable(r.buf)
    ensures Recv(r, len).0 == r.(buf := Recv(r, len).0.buf)
    ensures Recv(r, len).1 == Stream(r.buf)[..if len < |Stream(r.buf)| then len else |Stream(r.buf)|]
  {
    ReadIsStream(r.buf, len);
    hide Readable, Stream, Read;
  }

  lemma NextBytes(before: seq<byte>, stream: seq<byte>, k: nat)
    requires k <= |stream|
    ensures before + stream[..k] == (before + stream)[..|before| + k]
  {
  }

  lemma Reads(p: Params, s: Sys, len: nat)
    requires Sensible(p) && Inv(p, s)
    ensures ReadLaw(p, s, len, Next(p, s, AppRecv(len)))
  {
    assert RcvInv(p, s.rcv, s.chunks) && s.received == BytesRead(p, s.rcv, s.chunks) && p.isn <= s.rcv.lastAck;
    assert Readable(s.rcv.buf);
    hide Inv, RcvInv, Readable, Stream, BytesRead, Recv, Flatten, Filled;
    ReadPlusStream(p, s.rcv, s.chunks);
    EmptiesRead(p, s.rcv, s.chunks, len);
    HandsOut(s.rcv, len);
    var stream := Stream(s.rcv.buf);
    NextBytes(s.received, stream, if len < |stream| then len else |stream|);
  }

  // ---------- over all runs ----------

  /** In every state that a run reaches, every step obeys its law. */
  lemma {:induction false} EveryStep(p: Params, steps: seq<Step>, step: Step)
    requires Sensible(p)
    ensures Lawful(p, Run(p, steps), step, Next(p, Run(p, steps), step))
  {
    hide Run;
    RunInv(p, steps);
    Obeys(p, Run(p, steps), step);
  }

  lemma Obeys(p: Params, s: Sys, step: Step)
    requires Sensible(p) && Inv(p, s)
    ensures Lawful(p, s, step, Next(p, s, step))
  {
    hide Inv, Next, SendLaw, TakeLossLaw, ResendLaw, TransmitLaw, TimeoutLaw, DeliverLaw, AcknowledgeLaw, ReportLaw,
      ReadLaw;
    match step
    case AppSend(data) => Sends(p, s, data);
    case TakeLoss => Takes(p, s);
    case Resend => Resends(p, s);
    case Transmit(cwnd) => Transmits(p, s, cwnd);
    case Timeout => Expires(p, s);
    case Deliver(pkt, answer) => Delivers(p, s, pkt, answer);
    case Acknowledge(lite, due) => Acknowledges(p, s, lite, due);
    case ReportLoss(runs) => RepeatsReport(p, s, runs);
    case AppRecv(len) => Reads(p, s, len);
  }

  /** Every number that the receiver lists as lost has been named in a loss report. */
  ghost predicate AllReported(s: Sys) {
    forall x | x in s.rcv.loss :: Reported(s.net, x)
  }

  ghost predicate Reported(net: set<Packet>, x: int) {
    exists runs :: Nak(runs) in net && Names(runs, x)
  }

  lemma {:induction false} EveryLossReported(p: Params, steps: seq<Step>)
    requires Sensible(p)
    ensures AllReported(Run(p, steps))
  {
    if steps != [] {
      var s, step := Run(p, steps[..|steps| - 1]), steps[|steps| - 1];
      EveryLossReported(p, steps[..|steps| - 1]);
      RunInv(p, steps[..|steps| - 1]);
      StaysReported(p, s, step);
    }
  }

  /** Packets stay in the network, and nothing but a new packet makes numbers lost. */
  lemma StaysReported(p: Params, s: Sys, step: Step)
    requires Sensible(p) && Inv(p, s) && AllReported(s)
    ensures AllReported(Next(p, s, step))
  {
    hide Inv, Next, Names;
    var t := Next(p, s, step);
    LossGrows(p, s, step);
    forall x | x in t.rcv.loss
      ensures Reported(t.net, x)
    {
      if x in s.rcv.loss {
        assert Reported(s.net, x);
        StillReported(s.net, t.net, x);
      } else {
        NewlyReported(s, t, x);
      }
    }
  }

  lemma StillReported(was: set<Packet>, now: set<Packet>, x: int)
    requires was <= now && Reported(was, x)
    ensures Reported(now, x)
  {
    hide Names;
    var runs :| Nak(runs) in was && Names(runs, x);
    assert Nak(runs) in now && Names(runs, x);
  }

  /** A number that becomes lost lies in the gap that is reported on the spot. */
  ghost predicate InGap(s: Sys, t: Sys, x: int) {
    exists lo, hi :: lo <= x <= hi && Nak([Node(lo, hi)]) in t.net
  }

  lemma NewlyReported(s: Sys, t: Sys, x: int)
    requires InGap(s, t, x)
    ensures Reported(t.net, x)
  {
    var lo, hi :| lo <= x <= hi && Nak([Node(lo, hi)]) in t.net;
    var runs := [Node(lo, hi)];
    assert runs[0].lo <= x <= runs[0].hi;
    assert Nak(runs) in t.net && Names(runs, x);
  }

  lemma LossGrows(p: Params, s: Sys, step: Step)
    requires Sensible(p) && Inv(p, s)
    ensures var t := Next(p, s, step);
      s.net <= t.net && forall x | x in t.rcv.loss :: x in s.rcv.loss || InGap(s, t, x)
  {
    hide Inv;
    Obeys(p, s, step);
    hide Next;
    hide SendLaw, TakeLossLaw, ResendLaw, TransmitLaw, TimeoutLaw;
  }
}
