/** The transport protocol as atomic steps of a sender and a receiver over a network that loses, duplicates
    and reorders packets, as long as they are not overtaken by half the sequence space. Sequence numbers are unbounded
    counters here, compared as the wrapped numbers are wherever that makes a difference; the Connections module ties
    them to the 31-bit numbers of the implementation. */
module Protocol {
  import opened Basics
  import opened Packets
  import opened Intervals
  import opened RcvBuffers
  import opened SeqNo
  import S = SndBuffers

  datatype Packet =
    | Data(seqno: int, chunk: Chunk)
    | FullAck(ack: int, window: int)
    | LiteAck(ack: int)
    | Nak(runs: seq<Node>)
    | AckAck(ack: int)

  // ---------- sender ----------

  /** lastAck, lastDataAck and curr are the newest acknowledged number, the number of the oldest packet in the
      buffer and the largest number sent; lost is a number taken from the loss list but not yet resent. */
  datatype Snd = Snd(lastAck: int, lastDataAck: int, curr: int, window: int, buf: S.SBuf, loss: set<int>,
                     lost: Option<int>, broken: bool)

  ghost function Least(s: set<int>): (m: int)
    requires s != {}
    ensures m in s && forall x | x in s :: m <= x
  {
    LeastExists(s);
    var m :| m in s && forall x | x in s :: m <= x;
    m
  }

  lemma {:induction false} LeastExists(s: set<int>)
    requires s != {}
    ensures exists m :: m in s && forall x | x in s :: m <= x
    decreases s
  {
    EmptyHasNone(s);
    var y :| y in s;
    if s != {y} {
      LeastExists(s - {y});
      var m :| m in s - {y} && forall x | x in s - {y} :: m <= x;
      assert s == s - {y} + {y};
      var k := if m < y then m else y;
      assert k in s && forall x | x in s :: k <= x;
    }
  }

  lemma EmptyHasNone(s: set<int>)
    ensures (forall y :: y !in s) ==> s == {}
  {
    if forall y :: y !in s { assert s == {}; }
  }

  /** Accepts as much of data as the buffer limit leaves room for. */
  function Send(s: Snd, data: seq<byte>, mss: int, limit: int): (Snd, int)
    requires mss > 0
  {
    if data == [] || limit <= |s.buf.blocks| then (s, 0)
    else
      var room := (limit - |s.buf.blocks|) * mss;
      var n := if room > |data| then |data| else room;
      if n <= 0 then (s, 0) else (s.(buf := S.AddBuffer(s.buf, data[..n], mss, false)), n)
  }

  /** Takes the smallest lost number off the list. */
  ghost function PopLoss(s: Snd): Snd {
    if s.loss == {} || s.lost.Some? then s
    else s.(lost := Some(Least(s.loss)), loss := s.loss - {Least(s.loss)})
  }

  /** Resends the number taken off the list, unless its data has been acknowledged meanwhile. */
  function Retransmit(s: Snd): (Snd, Option<Packet>) {
    if s.lost.None? then (s, None)
    else
      var offset := s.lost.value - s.lastDataAck;
      (s.(lost := None),
       if 0 <= offset < |s.buf.blocks| then Some(Data(s.lost.value, s.buf.blocks[offset])) else None)
  }

  /** Sends the next new packet if both windows allow it. */
  function SendNew(s: Snd, cwnd: int): (Snd, Option<Packet>) {
    var w := if s.window < cwnd then s.window else cwnd;
    if w >= s.curr + 1 - s.lastAck + 1 && s.buf.cur < |s.buf.blocks| then
      (s.(curr := s.curr + 1, buf := s.buf.(cur := s.buf.cur + 1)),
       Some(Data(s.curr + 1, s.buf.blocks[s.buf.cur])))
    else (s, None)
  }

  /** What the sending thread does when its turn comes: lost packets first, then new ones. */
  ghost function PackData(s: Snd, cwnd: int): (Snd, Option<Packet>) {
    if s.loss != {} then Retransmit(PopLoss(s)) else SendNew(s, cwnd)
  }

  function OnLiteAck(s: Snd, ack: int): Snd {
    if ack >= s.lastAck then s.(window := s.window - (ack - s.lastAck), lastAck := ack) else s
  }

  ghost function OnFullAck(s: Snd, ack: int, window: int): Snd {
    if ack > s.curr + 1 then s.(broken := true)
    else Release(TakeWindow(s, ack, window), ack)
  }

  function TakeWindow(s: Snd, ack: int, window: int): Snd {
    if ack >= s.lastAck then s.(window := window, lastAck := ack) else s
  }

  /** Gives up the packets before ack. */
  ghost function Release(s: Snd, ack: int): Snd {
    var offset := ack - s.lastDataAck;
    if offset <= 0 || offset > |s.buf.blocks| || offset > s.buf.cur then s
    else s.(buf := S.AckData(s.buf, offset), lastDataAck := ack, loss := set x | x in s.loss && x >= ack)
  }

  /** An entry of a loss report about a number never sent, or about no interval at all. */
  ghost predicate Impossible(s: Snd, run: Node) {
    if run.lo != run.hi then run.lo > run.hi || run.hi > s.curr else s.lastAck <= run.lo && s.curr < run.lo
  }

  /** Any other entry. */
  ghost function OnLoss(s: Snd, run: Node): Snd {
    if run.lo >= s.lastAck then s.(loss := s.loss + Range(run.lo, run.hi))
    else if run.hi >= s.lastAck then s.(loss := s.loss + Range(s.lastAck, run.hi))
    else s
  }

  /** An impossible entry breaks the connection and ends the report. */
  ghost function OnNak(s: Snd, runs: seq<Node>): Snd
    decreases |runs|
  {
    if runs == [] then s
    else if Impossible(s, runs[0]) then s.(broken := true)
    else OnNak(OnLoss(s, runs[0]), runs[1..])
  }

  /** On a timeout with an empty loss list everything unacknowledged counts as lost. */
  ghost function OnTimeout(s: Snd): Snd {
    if |s.buf.blocks| > 0 && s.curr + 1 != s.lastAck && s.loss == {}
    then s.(loss := Range(s.lastAck, s.curr)) else s
  }

  // ---------- receiver ----------

  /** lastAck is the number of the first packet not acknowledged, lastAckAck the newest acknowledgement the
      sender has confirmed, curr the largest number received. */
  datatype Rcv = Rcv(lastAck: int, lastAckAck: int, curr: int, buf: Buf, loss: set<int>)

  /** Number of the packet in the first slot of the receive buffer. */
  function ReadPoint(r: Rcv): int {
    r.lastAck - r.buf.acked
  }

  ghost predicate Filled(r: Rcv, x: int) {
    0 <= x - ReadPoint(r) < |r.buf.cells| && r.buf.cells[x - ReadPoint(r)].Held?
  }

  /** Packet t is of use to the receiver. */
  ghost predicate Accepts(r: Rcv, t: int) {
    0 <= t - r.lastAck < AvailSize(r.buf) && !Filled(r, t)
  }

  ghost function OnData(r: Rcv, t: int, chunk: Chunk): (Rcv, Option<Packet>) {
    var offset := t - r.lastAck;
    if offset < 0 || offset >= AvailSize(r.buf) then (r, None)
    else
      var (buf, added) := AddData(r.buf, chunk, offset);
      var r1 := r.(buf := buf);
      if !added then (r1, None)
      else if t > r.curr + 1 then
        (r1.(loss := r.loss + Range(r.curr + 1, t - 1), curr := t), Some(Nak([Node(r.curr + 1, t - 1)])))
      else if t > r.curr then (r1.(curr := t), None)
      else (r1.(loss := r.loss - {t}), None)
  }

  /** The first number that has not been received. */
  ghost function FirstMissing(r: Rcv): int {
    if r.loss == {} then r.curr + 1 else Least(r.loss)
  }

  /** Acknowledges what has been received without gaps. A full acknowledgement that says nothing new is sent
      only when it is due, and none at all when its wrapped number does not look newer than the one confirmed. */
  ghost function SendAck(r: Rcv, lite: bool, due: bool): (Rcv, Option<Packet>) {
    var ack := FirstMissing(r);
    if Wrap(ack) == Wrap(r.lastAckAck) then (r, None)
    else if lite then (r, Some(LiteAck(ack)))
    else SendFullAck(r, ack, due)
  }

  function SendFullAck(r: Rcv, ack: int, due: bool): (Rcv, Option<Packet>) {
    if ack < r.lastAck || (ack == r.lastAck && !due) then (r, None)
    else
      var r1 := if ack > r.lastAck then r.(lastAck := ack, buf := AckData(r.buf, ack - r.lastAck)) else r;
      if Newer(r1.lastAck, r1.lastAckAck) then
        (r1, Some(FullAck(r1.lastAck, if AvailSize(r1.buf) < 2 then 2 else AvailSize(r1.buf))))
      else (r1, None)
  }

  /** A loss report names intervals of numbers that are lost. */
  ghost predicate Reports(r: Rcv, runs: seq<Node>) {
    forall i | 0 <= i < |runs| :: runs[i].lo <= runs[i].hi && Range(runs[i].lo, runs[i].hi) <= r.loss
  }

  function OnAckAck(r: Rcv, ack: int): Rcv {
    if Newer(ack, r.lastAckAck) then r.(lastAckAck := ack) else r
  }

  ghost function Recv(r: Rcv, len: nat): (Rcv, seq<byte>) {
    if Readable(r.buf) then (r.(buf := Read(r.buf, len).0), Read(r.buf, len).1) else (r, [])
  }

  // ---------- the system ----------

  /** Initial sequence number, packet size, negotiated window, receive buffer slots, send buffer limit. */
  datatype Params = Params(isn: int, mss: int, window: int, rcvSize: int, sndLimit: int)

  /** A connection whose receive buffer is no larger than the negotiated window. */
  ghost predicate Sensible(p: Params) {
    p.mss > 0 && 0 < p.rcvSize <= p.window && 2 <= p.window
  }

  /** sent and received are what the application has handed over and got; chunks are all packets ever queued. */
  datatype Sys = Sys(snd: Snd, rcv: Rcv, net: set<Packet>, sent: seq<byte>, chunks: seq<Chunk>, received: seq<byte>)

  datatype Step =
    | AppSend(data: seq<byte>)
    | TakeLoss
    | Resend
    | Transmit(cwnd: int)
    | Timeout
    | Deliver(pkt: Packet, answer: bool)
    | Acknowledge(lite: bool, due: bool)
    | ReportLoss(runs: seq<Node>)
    | AppRecv(len: nat)

  ghost function Init(p: Params): Sys
    requires Sensible(p)
  {
    Sys(Snd(p.isn, p.isn, p.isn - 1, p.window, S.SBuf([], 0, 1), {}, None, false),
        Rcv(p.isn, p.isn, p.isn - 1, Buf(Blank(p.rcvSize), 0, 0, 0), {}), {}, [], [], [])
  }

  ghost function Post(net: set<Packet>, out: Option<Packet>): set<Packet> {
    if out.None? then net else net + {out.value}
  }

  /** A number that the sender's numbering has not left half the sequence space behind. */
  ghost predicate Recent(snd: Snd, n: int) {
    snd.curr + 1 - n < SEQ_TH
  }

  /** A packet young enough to be delivered: no packet outlives half the sequence space. */
  ghost predicate Young(snd: Snd, pkt: Packet) {
    match pkt
    case Data(t, chunk) => Recent(snd, t)
    case FullAck(ack, window) => Recent(snd, ack)
    case LiteAck(ack) => Recent(snd, ack)
    case Nak(runs) => forall i | 0 <= i < |runs| :: Recent(snd, runs[i].lo)
    case AckAck(ack) => Recent(snd, ack)
  }

  /** A young packet that is in the network may be delivered any number of times, in any order, or never. The sender
      may answer a full acknowledgement to confirm that it has seen it. */
  ghost function Next(p: Params, s: Sys, step: Step): Sys
    requires Sensible(p)
  {
    match step
    case AppSend(data) =>
      var (snd, n) := Send(s.snd, data, p.mss, p.sndLimit);
      if 0 < n <= |data| then
        s.(snd := snd, sent := s.sent + data[..n],
           chunks := s.chunks + S.Chop(data[..n], p.mss, s.snd.buf.nextMsgNo, false, true))
      else s
    case TakeLoss => s.(snd := PopLoss(s.snd))
    case Resend => var (snd, out) := Retransmit(s.snd); s.(snd := snd, net := Post(s.net, out))
    case Transmit(cwnd) => var (snd, out) := SendNew(s.snd, cwnd); s.(snd := snd, net := Post(s.net, out))
    case Timeout => s.(snd := OnTimeout(s.snd))
    case Deliver(pkt, answer) =>
      if pkt !in s.net || !Young(s.snd, pkt) then s
      else (match pkt
        case Data(t, chunk) => var (rcv, out) := OnData(s.rcv, t, chunk); s.(rcv := rcv, net := Post(s.net, out))
        case FullAck(ack, window) =>
          s.(snd := OnFullAck(s.snd, ack, window), net := Post(s.net, if answer then Some(AckAck(ack)) else None))
        case LiteAck(ack) => s.(snd := OnLiteAck(s.snd, ack))
        case Nak(runs) => s.(snd := OnNak(s.snd, runs))
        case AckAck(ack) => s.(rcv := OnAckAck(s.rcv, ack)))
    case Acknowledge(lite, due) =>
      var (rcv, out) := SendAck(s.rcv, lite, due); s.(rcv := rcv, net := Post(s.net, out))
    case ReportLoss(runs) => if Reports(s.rcv, runs) then s.(net := s.net + {Nak(runs)}) else s
    case AppRecv(len) =>
      var (rcv, out) := Recv(s.rcv, len); s.(rcv := rcv, received := s.received + out)
  }

  ghost function Run(p: Params, steps: seq<Step>): Sys
    requires Sensible(p)
  {
    if steps == [] then Init(p) else Next(p, Run(p, steps[..|steps| - 1]), steps[|steps| - 1])
  }

  // ---------- invariant ----------

  /** The buffered packets are those from lastDataAck on, the unsent ones those after curr, and what is
      outstanding fits the negotiated window even while lite acknowledgements shrink it. */
  ghost predicate SndInv(p: Params, s: Snd, chunks: seq<Chunk>) {
    && p.isn <= s.lastDataAck <= s.lastAck <= s.curr + 1 && s.curr + 1 - p.isn <= |chunks|
    && s.buf.blocks == chunks[s.lastDataAck - p.isn..] && s.buf.cur == s.curr + 1 - s.lastDataAck
    && (forall x | x in s.loss :: s.lastDataAck <= x <= s.curr)
    && (s.lost.Some? ==> p.isn <= s.lost.value <= s.curr)
    && s.lastAck + s.window <= s.lastDataAck + p.window && s.curr + 1 <= s.lastDataAck + p.window
    && !s.broken
  }

  /** Every filled slot holds the right packet, and the loss list is exactly the set of unfilled numbers from
      lastAck to curr. */
  ghost predicate RcvInv(p: Params, r: Rcv, chunks: seq<Chunk>) {
    && p.isn <= ReadPoint(r) && |r.buf.cells| == p.rcvSize && Readable(r.buf)
    && r.lastAck - 1 <= r.curr < p.isn + |chunks| && r.curr - ReadPoint(r) <= p.rcvSize - 2
    && p.isn <= r.lastAckAck <= r.lastAck
    && (forall i | 0 <= i < |r.buf.cells| :: r.buf.cells[i].Held? ==>
          ReadPoint(r) + i <= r.curr && r.buf.cells[i] == Held(chunks[ReadPoint(r) + i - p.isn], 1))
    && (forall x :: x in r.loss <==> r.lastAck <= x <= r.curr && !Filled(r, x))
  }

  /** Acknowledgement ack has left its mark on the sender: it has heard of a newer one or has a window of two. */
  ghost predicate Heard(snd: Snd, ack: int) {
    ack < snd.lastAck || (ack == snd.lastAck && snd.window >= 2)
  }

  /** Everything in the network is genuine. */
  ghost predicate PacketInv(p: Params, s: Sys, pkt: Packet) {
    match pkt
    case Data(t, chunk) => p.isn <= t <= s.snd.curr < p.isn + |s.chunks| && chunk == s.chunks[t - p.isn]
    case FullAck(ack, window) => p.isn <= ack <= s.rcv.lastAck && 2 <= window <= p.window
    case LiteAck(ack) => p.isn <= ack && Received(s.rcv, ack)
    case Nak(runs) => forall i | 0 <= i < |runs| :: p.isn <= runs[i].lo <= runs[i].hi <= s.rcv.curr
    case AckAck(ack) => p.isn <= ack <= s.rcv.lastAck && Heard(s.snd, ack)
  }

  ghost function BytesRead(p: Params, r: Rcv, chunks: seq<Chunk>): seq<byte>
    requires RcvInv(p, r, chunks)
  {
    var k := ReadPoint(r) - p.isn;
    Flatten(chunks[..k]) + if r.buf.notch > 0 then chunks[k].bytes[..r.buf.notch] else []
  }

  /** Everything below ack has been received. */
  ghost predicate Received(r: Rcv, ack: int) {
    ack <= r.curr + 1 && forall x | x in r.loss :: ack <= x
  }

  ghost predicate Inv(p: Params, s: Sys) {
    && SndInv(p, s.snd, s.chunks) && RcvInv(p, s.rcv, s.chunks)
    && s.rcv.curr <= s.snd.curr && s.snd.lastDataAck <= s.rcv.lastAck
    && Heard(s.snd, s.rcv.lastAckAck) && Received(s.rcv, s.snd.lastAck)
    && (forall pkt | pkt in s.net :: PacketInv(p, s, pkt))
    && s.sent == Flatten(s.chunks) && s.received == BytesRead(p, s.rcv, s.chunks)
  }

  lemma InitInv(p: Params)
    requires Sensible(p)
    ensures Inv(p, Init(p))
  {
    InitSnd(p);
    InitRcv(p);
    assert Flatten([]) == [];
    hide SndInv, RcvInv, PacketInv, Flatten, BytesRead;
  }

  lemma InitSnd(p: Params)
    requires Sensible(p)
    ensures SndInv(p, Snd(p.isn, p.isn, p.isn - 1, p.window, S.SBuf([], 0, 1), {}, None, false), [])
  {
    var none: seq<Chunk> := [];
    assert none[0..] == none;
  }

  lemma InitRcv(p: Params)
    requires Sensible(p)
    ensures var r := Rcv(p.isn, p.isn, p.isn - 1, Buf(Blank(p.rcvSize), 0, 0, 0), {});
      RcvInv(p, r, []) && BytesRead(p, r, []) == []
  {
    var cells := Blank(p.rcvSize);
    assert forall i | 0 <= i < |cells| :: cells[i] == Empty;
    hide Blank;
    assert Flatten([]) == [];
    hide Flatten;
  }

  // ---------- every step keeps the invariant ----------

  lemma SndGrows(p: Params, snd: Snd, chunks: seq<Chunk>, more: seq<Chunk>, msgNo: bv32)
    requires SndInv(p, snd, chunks)
    ensures SndInv(p, snd.(buf := snd.buf.(blocks := snd.buf.blocks + more, nextMsgNo := msgNo)), chunks + more)
  {
    assert (chunks + more)[snd.lastDataAck - p.isn..] == chunks[snd.lastDataAck - p.isn..] + more;
  }

  lemma RcvGrows(p: Params, r: Rcv, chunks: seq<Chunk>, more: seq<Chunk>)
    requires RcvInv(p, r, chunks)
    ensures RcvInv(p, r, chunks + more) && BytesRead(p, r, chunks + more) == BytesRead(p, r, chunks)
  {
    var k := ReadPoint(r) - p.isn;
    assert (chunks + more)[..k] == chunks[..k];
  }

  lemma AppSendKeeps(p: Params, s: Sys, data: seq<byte>)
    requires Sensible(p) && Inv(p, s)
    ensures Inv(p, Next(p, s, AppSend(data)))
  {
    hide S.Chop, S.NextMsgNo, Flatten, BytesRead, RcvInv, SndInv;
    var (snd, n) := Send(s.snd, data, p.mss, p.sndLimit);
    if 0 < n <= |data| {
      var more := S.Chop(data[..n], p.mss, s.snd.buf.nextMsgNo, false, true);
      SndGrows(p, s.snd, s.chunks, more, S.NextMsgNo(s.snd.buf.nextMsgNo));
      RcvGrows(p, s.rcv, s.chunks, more);
      FlattenConcat(s.chunks, more);
      S.ChopFlatten(data[..n], p.mss, s.snd.buf.nextMsgNo, false, true);
      var s' := Next(p, s, AppSend(data));
      forall pkt | pkt in s'.net
        ensures PacketInv(p, s', pkt)
      {
        assert PacketInv(p, s, pkt);
      }
    }
  }

  /** The sender forgets no acknowledgement it has heard of. */
  ghost predicate Forward(was: Snd, now: Snd) {
    was.lastAck < now.lastAck || (was.lastAck == now.lastAck && (was.window == now.window || now.window >= 2))
  }

  /** A sender step that leaves the receiver alone and emits at most one genuine packet. */
  lemma SenderStepKeeps(p: Params, s: Sys, snd: Snd, out: Option<Packet>)
    requires Inv(p, s) && SndInv(p, snd, s.chunks)
    requires s.snd.curr <= snd.curr && snd.lastDataAck <= s.rcv.lastAck
    requires Forward(s.snd, snd) && Received(s.rcv, snd.lastAck)
    requires out.Some? ==> PacketInv(p, s.(snd := snd), out.value)
    ensures Inv(p, s.(snd := snd, net := Post(s.net, out)))
  {
    hide RcvInv, BytesRead;
    var s' := s.(snd := snd, net := Post(s.net, out));
    forall pkt | pkt in s'.net
      ensures PacketInv(p, s', pkt)
    {
      if pkt in s.net { assert PacketInv(p, s, pkt); }
    }
  }

  lemma TakeLossKeeps(p: Params, s: Sys)
    requires Sensible(p) && Inv(p, s)
    ensures Inv(p, Next(p, s, TakeLoss))
  {
    SenderStepKeeps(p, s, PopLoss(s.snd), None);
  }

  /** Whatever is resent is the packet first sent under that number. */
  lemma ResendKeeps(p: Params, s: Sys)
    requires Sensible(p) && Inv(p, s)
    ensures Inv(p, Next(p, s, Resend))
  {
    var (snd, out) := Retransmit(s.snd);
    SenderStepKeeps(p, s, snd, out);
  }

  lemma TransmitKeeps(p: Params, s: Sys, cwnd: int)
    requires Sensible(p) && Inv(p, s)
    ensures Inv(p, Next(p, s, Transmit(cwnd)))
  {
    var (snd, out) := SendNew(s.snd, cwnd);
    SenderStepKeeps(p, s, snd, out);
  }

  lemma TimeoutKeeps(p: Params, s: Sys)
    requires Sensible(p) && Inv(p, s)
    ensures Inv(p, Next(p, s, Timeout))
  {
    SenderStepKeeps(p, s, OnTimeout(s.snd), None);
  }

  lemma LiteAckKeeps(p: Params, s: Sys, ack: int)
    requires Sensible(p) && Inv(p, s) && LiteAck(ack) in s.net
    ensures Inv(p, s.(snd := OnLiteAck(s.snd, ack)))
  {
    assert PacketInv(p, s, LiteAck(ack));
    SenderStepKeeps(p, s, OnLiteAck(s.snd, ack), None);
  }

  lemma FullAckInv(p: Params, snd: Snd, chunks: seq<Chunk>, ack: int, window: int)
    requires SndInv(p, snd, chunks) && p.isn <= ack <= snd.curr + 1 && window <= p.window
    ensures var snd' := OnFullAck(snd, ack, window);
      && SndInv(p, snd', chunks) && snd'.curr == snd.curr
      && (snd'.lastDataAck == snd.lastDataAck || snd'.lastDataAck == ack)
      && snd'.lastAck == (if ack >= snd.lastAck then ack else snd.lastAck)
      && snd'.window == (if ack >= snd.lastAck then window else snd.window)
  {
    var snd' := OnFullAck(snd, ack, window);
    assert chunks[snd.lastDataAck - p.isn..][snd'.lastDataAck - snd.lastDataAck..]
        == chunks[snd'.lastDataAck - p.isn..];
  }

  lemma FullAckKeeps(p: Params, s: Sys, ack: int, window: int, answer: bool)
    requires Sensible(p) && Inv(p, s) && FullAck(ack, window) in s.net
    ensures Inv(p, Next(p, s, Deliver(FullAck(ack, window), answer)))
  {
    if !Young(s.snd, FullAck(ack, window)) { return; }
    assert PacketInv(p, s, FullAck(ack, window));
    FullAckInv(p, s.snd, s.chunks, ack, window);
    assert Received(s.rcv, ack);
    hide OnFullAck, RcvInv, SndInv, BytesRead;
    SenderStepKeeps(p, s, OnFullAck(s.snd, ack, window), if answer then Some(AckAck(ack)) else None);
  }

  lemma {:induction false} NakSndInv(p: Params, snd: Snd, chunks: seq<Chunk>, runs: seq<Node>)
    requires SndInv(p, snd, chunks)
    requires forall i | 0 <= i < |runs| :: runs[i].lo <= runs[i].hi <= snd.curr
    ensures var snd' := OnNak(snd, runs);
      && SndInv(p, snd', chunks) && snd'.curr == snd.curr && snd'.lastDataAck == snd.lastDataAck
      && snd'.lastAck == snd.lastAck && snd'.window == snd.window
    decreases |runs|
  {
    if runs != [] {
      NakSndInv(p, OnLoss(snd, runs[0]), chunks, runs[1..]);
    }
  }

  lemma NakKeeps(p: Params, s: Sys, runs: seq<Node>)
    requires Sensible(p) && Inv(p, s) && Nak(runs) in s.net
    ensures Inv(p, s.(snd := OnNak(s.snd, runs)))
  {
    assert PacketInv(p, s, Nak(runs));
    NakSndInv(p, s.snd, s.chunks, runs);
    SenderStepKeeps(p, s, OnNak(s.snd, runs), None);
  }

  /** A receiver step that leaves the sender alone and emits at most one genuine packet. */
  lemma ReceiverStepKeeps(p: Params, s: Sys, rcv: Rcv, out: Option<Packet>, more: seq<byte>)
    requires Inv(p, s) && RcvInv(p, rcv, s.chunks)
    requires s.rcv.lastAck <= rcv.lastAck && s.rcv.curr <= rcv.curr <= s.snd.curr
    requires forall x | x in rcv.loss :: x in s.rcv.loss || x > s.rcv.curr
    requires Heard(s.snd, rcv.lastAckAck)
    requires BytesRead(p, rcv, s.chunks) == s.received + more
    requires out.Some? ==> PacketInv(p, s.(rcv := rcv), out.value)
    ensures Inv(p, s.(rcv := rcv, net := Post(s.net, out), received := s.received + more))
  {
    hide RcvInv, SndInv, BytesRead;
    var s' := s.(rcv := rcv, net := Post(s.net, out), received := s.received + more);
    forall pkt | pkt in s'.net
      ensures PacketInv(p, s', pkt)
    {
      if pkt in s.net { assert PacketInv(p, s, pkt); }
    }
  }

  lemma DataKeeps(p: Params, s: Sys, t: int, chunk: Chunk)
    requires Sensible(p) && Inv(p, s) && Data(t, chunk) in s.net
    ensures var (rcv, out) := OnData(s.rcv, t, chunk); Inv(p, s.(rcv := rcv, net := Post(s.net, out)))
  {
    assert PacketInv(p, s, Data(t, chunk));
    var (rcv, out) := OnData(s.rcv, t, chunk);
    OnDataInv(p, s.rcv, s.chunks, t, chunk);
    assert s.received + [] == s.received;
    hide OnData;
    ReceiverStepKeeps(p, s, rcv, out, []);
  }

  /** Storing packet t fills exactly slot t. */
  lemma StoreFills(p: Params, r: Rcv, chunks: seq<Chunk>, t: int, chunk: Chunk)
    requires RcvInv(p, r, chunks) && p.isn <= t < p.isn + |chunks| && chunk == chunks[t - p.isn]
    requires 0 <= t - r.lastAck < AvailSize(r.buf) && !Filled(r, t)
    ensures var r1 := r.(buf := AddData(r.buf, chunk, t - r.lastAck).0);
      && AddData(r.buf, chunk, t - r.lastAck).1
      && r1.buf.acked == r.buf.acked && r1.buf.notch == r.buf.notch
      && |r1.buf.cells| == |r.buf.cells| && Readable(r1.buf) && (forall x :: Filled(r1, x) <==> Filled(r, x) || x == t)
      && (forall i | 0 <= i < |r1.buf.cells| :: r1.buf.cells[i].Held? ==>
            (ReadPoint(r) + i <= r.curr || ReadPoint(r) + i == t)
            && r1.buf.cells[i] == Held(chunks[ReadPoint(r) + i - p.isn], 1))
  {
  }

  /** Reception of packet t: numbers skipped over become lost, number t stops being lost. */
  ghost function LossAfter(r: Rcv, t: int): set<int> {
    if t > r.curr + 1 then r.loss + Range(r.curr + 1, t - 1) else if t > r.curr then r.loss else r.loss - {t}
  }

  lemma LossTracksSlots(p: Params, r: Rcv, chunks: seq<Chunk>, t: int, r': Rcv)
    requires RcvInv(p, r, chunks) && r.lastAck <= t && !Filled(r, t)
    requires r'.lastAck == r.lastAck && r'.curr == (if t > r.curr then t else r.curr) && r'.loss == LossAfter(r, t)
    requires forall x :: Filled(r', x) <==> Filled(r, x) || x == t
    ensures forall x :: x in r'.loss <==> r'.lastAck <= x <= r'.curr && !Filled(r', x)
  {
    assert forall x :: Filled(r, x) ==> x <= r.curr;
    hide Filled;
  }

  /** A new packet keeps the receiver in order. */
  lemma StoredInv(p: Params, r: Rcv, chunks: seq<Chunk>, t: int, chunk: Chunk)
    requires RcvInv(p, r, chunks) && p.isn <= t < p.isn + |chunks| && chunk == chunks[t - p.isn]
    requires 0 <= t - r.lastAck < AvailSize(r.buf) && !Filled(r, t)
    ensures var r' := Rcv(r.lastAck, r.lastAckAck, if t > r.curr then t else r.curr,
                          AddData(r.buf, chunk, t - r.lastAck).0, LossAfter(r, t));
      && AddData(r.buf, chunk, t - r.lastAck).1 && RcvInv(p, r', chunks)
      && BytesRead(p, r', chunks) == BytesRead(p, r, chunks)
  {
    StoreFills(p, r, chunks, t, chunk);
    var r' := Rcv(r.lastAck, r.lastAckAck, if t > r.curr then t else r.curr,
                  AddData(r.buf, chunk, t - r.lastAck).0, LossAfter(r, t));
    LossTracksSlots(p, r, chunks, t, r');
    hide AddData, Filled, LossAfter, Readable;
  }

  lemma OnDataInv(p: Params, r: Rcv, chunks: seq<Chunk>, t: int, chunk: Chunk)
    requires RcvInv(p, r, chunks) && p.isn <= t < p.isn + |chunks| && chunk == chunks[t - p.isn]
    ensures var (rcv, out) := OnData(r, t, chunk);
      && RcvInv(p, rcv, chunks) && r.lastAck <= rcv.lastAck && BytesRead(p, rcv, chunks) == BytesRead(p, r, chunks)
      && r.curr <= rcv.curr && (rcv.curr == r.curr || rcv.curr == t)
      && (forall x | x in rcv.loss :: x in r.loss || x > r.curr)
      && (out.Some? ==>
            && out.value.Nak? && |out.value.runs| == 1
            && p.isn <= out.value.runs[0].lo <= out.value.runs[0].hi <= rcv.curr)
  {
    var offset := t - r.lastAck;
    assert r.lastAck - 1 <= r.curr;
    hide RcvInv, BytesRead, Filled;
    if 0 <= offset < AvailSize(r.buf) {
      if !Filled(r, t) {
        StoredInv(p, r, chunks, t, chunk);
      } else {
        DuplicateInv(p, r, chunks, offset, chunk);
      }
    }
  }

  lemma DuplicateInv(p: Params, r: Rcv, chunks: seq<Chunk>, offset: int, chunk: Chunk)
    requires RcvInv(p, r, chunks) && 0 <= offset < AvailSize(r.buf) && Filled(r, r.lastAck + offset)
    ensures var (buf, added) := AddData(r.buf, chunk, offset);
      && !added && RcvInv(p, r.(buf := buf), chunks)
      && BytesRead(p, r.(buf := buf), chunks) == BytesRead(p, r, chunks)
  {
    var r' := r.(buf := AddData(r.buf, chunk, offset).0);
    assert forall x :: Filled(r', x) <==> Filled(r, x);
  }

  /** Everything below the first missing number has been received. */
  lemma BelowFirstMissing(p: Params, r: Rcv, chunks: seq<Chunk>)
    requires RcvInv(p, r, chunks)
    ensures r.lastAck <= FirstMissing(r) <= r.curr + 1
    ensures forall x | ReadPoint(r) <= x < FirstMissing(r) :: Filled(r, x)
    ensures forall x | x in r.loss :: FirstMissing(r) <= x
  {
  }

  /** Acknowledging the received prefix only moves the acknowledged point over filled slots. */
  lemma AdvanceInv(p: Params, r: Rcv, chunks: seq<Chunk>)
    requires RcvInv(p, r, chunks)
    ensures var ack := FirstMissing(r);
      var r1 := r.(lastAck := ack, buf := AckData(r.buf, ack - r.lastAck));
      RcvInv(p, r1, chunks) && BytesRead(p, r1, chunks) == BytesRead(p, r, chunks)
  {
    BelowFirstMissing(p, r, chunks);
    var ack := FirstMissing(r);
    var r1 := r.(lastAck := ack, buf := AckData(r.buf, ack - r.lastAck));
    assert forall x :: Filled(r1, x) <==> Filled(r, x);
    forall i | 0 <= i < r1.buf.acked
      ensures r1.buf.cells[i].Held?
    {
      assert Filled(r, ReadPoint(r) + i);
    }
    assert Readable(r1.buf);
    hide FirstMissing, Filled, Readable;
  }

  lemma SendAckInv(p: Params, r: Rcv, chunks: seq<Chunk>, lite: bool, due: bool)
    requires Sensible(p) && RcvInv(p, r, chunks)
    ensures var (rcv, out) := SendAck(r, lite, due);
      && RcvInv(p, rcv, chunks) && BytesRead(p, rcv, chunks) == BytesRead(p, r, chunks)
      && r.lastAck <= rcv.lastAck && rcv.curr == r.curr && rcv.loss == r.loss
      && (out.Some? ==> match out.value
            case LiteAck(ack) => p.isn <= ack && Received(rcv, ack)
            case FullAck(ack, window) => p.isn <= ack == rcv.lastAck && 2 <= window <= p.window
            case _ => false)
  {
    assert p.isn <= r.lastAck && |r.buf.cells| == p.rcvSize;
    BelowFirstMissing(p, r, chunks);
    AdvanceInv(p, r, chunks);
    hide RcvInv, BytesRead, FirstMissing, Filled;
  }

  lemma AcknowledgeKeeps(p: Params, s: Sys, lite: bool, due: bool)
    requires Sensible(p) && Inv(p, s)
    ensures Inv(p, Next(p, s, Acknowledge(lite, due)))
  {
    var (rcv, out) := SendAck(s.rcv, lite, due);
    SendAckInv(p, s.rcv, s.chunks, lite, due);
    assert s.received + [] == s.received;
    hide RcvInv, SndInv, BytesRead, FirstMissing, SendAck;
    ReceiverStepKeeps(p, s, rcv, out, []);
  }

  lemma ReportLossKeeps(p: Params, s: Sys, runs: seq<Node>)
    requires Sensible(p) && Inv(p, s)
    ensures Inv(p, Next(p, s, ReportLoss(runs)))
  {
    if Reports(s.rcv, runs) {
      ReportBounds(p, s.rcv, s.chunks, runs);
      assert s.received + [] == s.received;
      hide RcvInv, BytesRead, Reports, SndInv;
      ReceiverStepKeeps(p, s, s.rcv, Some(Nak(runs)), []);
    }
  }

  lemma ReportBounds(p: Params, r: Rcv, chunks: seq<Chunk>, runs: seq<Node>)
    requires RcvInv(p, r, chunks) && Reports(r, runs)
    ensures forall i | 0 <= i < |runs| :: p.isn <= runs[i].lo <= runs[i].hi <= r.curr
  {
    forall i | 0 <= i < |runs|
      ensures p.isn <= runs[i].lo <= runs[i].hi <= r.curr
    {
      assert runs[i].lo in Range(runs[i].lo, runs[i].hi) && runs[i].hi in Range(runs[i].lo, runs[i].hi);
      assert runs[i].lo in r.loss && runs[i].hi in r.loss;
    }
  }

  lemma AckAckKeeps(p: Params, s: Sys, ack: int)
    requires Sensible(p) && Inv(p, s) && AckAck(ack) in s.net
    ensures Inv(p, s.(rcv := OnAckAck(s.rcv, ack)))
  {
    assert PacketInv(p, s, AckAck(ack));
    var rcv := OnAckAck(s.rcv, ack);
    assert forall x :: Filled(rcv, x) <==> Filled(s.rcv, x);
    assert s.received + [] == s.received;
    ReceiverStepKeeps(p, s, rcv, None, []);
  }

  /** What has been read and what can be read next make up the acknowledged packets. */
  lemma ReadPlusStream(p: Params, r: Rcv, chunks: seq<Chunk>)
    requires RcvInv(p, r, chunks)
    ensures r.lastAck - p.isn <= |chunks|
    ensures BytesRead(p, r, chunks) + Stream(r.buf) == Flatten(chunks[..r.lastAck - p.isn])
  {
    hide RcvInv, Flatten, Readable;
    AckedChunks(p, r, chunks);
    NotchFits(r.buf);
    SplitAtNotch(chunks, ReadPoint(r) - p.isn, r.buf.acked, r.buf.notch);
  }

  lemma SplitAtNotch(chunks: seq<Chunk>, k: nat, n: nat, notch: nat)
    requires k + n <= |chunks| && (notch > 0 ==> n > 0 && notch <= |chunks[k].bytes|)
    ensures notch <= |Flatten(chunks[k..k + n])|
    ensures Flatten(chunks[..k]) + (if notch > 0 then chunks[k].bytes[..notch] else [])
      + Flatten(chunks[k..k + n])[notch..]
      == Flatten(chunks[..k + n])
  {
    assert chunks[..k] + chunks[k..k + n] == chunks[..k + n];
    FlattenConcat(chunks[..k], chunks[k..k + n]);
    if notch > 0 {
      FlattenHead(chunks[k..k + n]);
      hide Flatten;
      Rejoin(chunks[k].bytes, Flatten(chunks[k..k + n][1..]), Flatten(chunks[..k]), notch);
    }
  }

  lemma Rejoin<T>(first: seq<T>, rest: seq<T>, before: seq<T>, n: nat)
    requires n <= |first|
    ensures before + first[..n] + (first + rest)[n..] == before + (first + rest)
  {
    assert first[..n] + (first + rest)[n..] == first + rest;
  }

  lemma AckedChunks(p: Params, r: Rcv, chunks: seq<Chunk>)
    requires RcvInv(p, r, chunks)
    ensures Readable(r.buf)
    ensures var k, n := ReadPoint(r) - p.isn, r.buf.acked;
      && 0 <= k && k + n <= |chunks| && Chunks(r.buf.cells[..n]) == chunks[k..k + n]
      && (r.buf.notch > 0 ==> n > 0 && r.buf.notch <= |chunks[k].bytes|)
  {
  }

  /** Reading empties slots below the acknowledged point and nothing else, and takes the front of the stream. */
  lemma RecvCuts(p: Params, r: Rcv, chunks: seq<Chunk>, len: nat)
    requires RcvInv(p, r, chunks)
    ensures var (rcv, out) := Recv(r, len);
      && RcvInv(p, rcv, chunks) && rcv == r.(buf := rcv.buf)
      && Readable(r.buf) && Readable(rcv.buf)
      && |out| <= |Stream(r.buf)| && out == Stream(r.buf)[..|out|] && Stream(rcv.buf) == Stream(r.buf)[|out|..]
  {
    assert Readable(r.buf);
    hide RcvInv, Stream, Readable, Read;
    ReadIsStream(r.buf, len);
    ReadCells(r.buf, len);
    RecvSlots(p, r, chunks, Recv(r, len).0);
  }

  lemma RecvInv(p: Params, r: Rcv, chunks: seq<Chunk>, len: nat)
    requires RcvInv(p, r, chunks)
    ensures var (rcv, out) := Recv(r, len);
      && RcvInv(p, rcv, chunks) && rcv.lastAck == r.lastAck && rcv.curr == r.curr && rcv.loss == r.loss
      && BytesRead(p, rcv, chunks) == BytesRead(p, r, chunks) + out
  {
    hide RcvInv, BytesRead, Stream, Flatten, Readable, Recv;
    var (rcv, out) := Recv(r, len);
    RecvCuts(p, r, chunks, len);
    ReadPlusStream(p, r, chunks);
    ReadPlusStream(p, rcv, chunks);
    SamePrefix(BytesRead(p, rcv, chunks), BytesRead(p, r, chunks), out, Stream(r.buf), Stream(rcv.buf));
  }

  lemma SamePrefix(x: seq<byte>, y: seq<byte>, out: seq<byte>, before: seq<byte>, after: seq<byte>)
    requires |out| <= |before| && out == before[..|out|] && after == before[|out|..] && x + after == y + before
    ensures x == y + out
  {
    assert before == out + after;
    assert y + before == (y + out) + after;
    assert |x| == |y + out|;
    assert (x + after)[..|x|] == x;
    assert ((y + out) + after)[..|x|] == y + out;
  }

  lemma RecvSlots(p: Params, r: Rcv, chunks: seq<Chunk>, rcv: Rcv)
    requires RcvInv(p, r, chunks) && rcv == r.(buf := rcv.buf) && rcv.buf.acked <= r.buf.acked && Readable(rcv.buf)
    requires rcv.buf.cells == r.buf.cells[r.buf.acked - rcv.buf.acked..] + Blank(r.buf.acked - rcv.buf.acked)
    ensures RcvInv(p, rcv, chunks)
  {
    assert forall x | x >= ReadPoint(rcv) :: Filled(rcv, x) <==> Filled(r, x);
    hide Readable;
  }

  lemma AppRecvKeeps(p: Params, s: Sys, len: nat)
    requires Sensible(p) && Inv(p, s)
    ensures Inv(p, Next(p, s, AppRecv(len)))
  {
    RecvInv(p, s.rcv, s.chunks, len);
    var (rcv, out) := Recv(s.rcv, len);
    hide RcvInv, SndInv, BytesRead, Recv;
    ReceiverStepKeeps(p, s, rcv, None, out);
  }

  lemma NextKeeps(p: Params, s: Sys, step: Step)
    requires Sensible(p) && Inv(p, s)
    ensures Inv(p, Next(p, s, step))
  {
    hide Inv, OnData, SendAck, Recv, Send, SendNew, Retransmit, PopLoss, OnTimeout;
    match step
    case AppSend(data) => AppSendKeeps(p, s, data);
    case TakeLoss => TakeLossKeeps(p, s);
    case Resend => ResendKeeps(p, s);
    case Transmit(cwnd) => TransmitKeeps(p, s, cwnd);
    case Timeout => TimeoutKeeps(p, s);
    case Deliver(pkt, answer) =>
      if pkt in s.net {
        match pkt
        case Data(t, chunk) => DataKeeps(p, s, t, chunk);
        case FullAck(ack, window) => FullAckKeeps(p, s, ack, window, answer);
        case LiteAck(ack) => LiteAckKeeps(p, s, ack);
        case Nak(runs) => NakKeeps(p, s, runs);
        case AckAck(ack) => AckAckKeeps(p, s, ack);
      }
    case Acknowledge(lite, due) => AcknowledgeKeeps(p, s, lite, due);
    case ReportLoss(runs) => ReportLossKeeps(p, s, runs);
    case AppRecv(len) => AppRecvKeeps(p, s, len);
  }

  lemma {:induction false} RunInv(p: Params, steps: seq<Step>)
    requires Sensible(p)
    ensures Inv(p, Run(p, steps))
  {
    if steps == [] {
      InitInv(p);
    } else {
      RunInv(p, steps[..|steps| - 1]);
      NextKeeps(p, Run(p, steps[..|steps| - 1]), steps[|steps| - 1]);
    }
  }

  /** The steps of one turn of the sending thread: taking a lost number off the list and resending it, or sending
      something new. */
  function TurnSteps(s: Sys, cwnd: int): seq<Step> {
    if s.snd.loss != {} then [TakeLoss, Resend] else [Transmit(cwnd)]
  }

  /** One turn of the sending thread is those steps. */
  lemma PackIsSteps(p: Params, s: Sys, cwnd: int)
    requires Sensible(p) && s.snd.lost.None?
    ensures var (snd, out) := PackData(s.snd, cwnd);
      s.(snd := snd, net := Post(s.net, out))
      == if s.snd.loss != {} then Next(p, Next(p, s, TakeLoss), Resend) else Next(p, s, Transmit(cwnd))
  {
    hide Least, S.Chop;
  }

  // ---------- what every run guarantees ----------

  /** Over any run, with any loss, duplication and reordering, what the receiving application has read is a
      prefix of what the sending application has handed over. */
  lemma {:induction false} StreamSafety(p: Params, steps: seq<Step>)
    requires Sensible(p)
    ensures Run(p, steps).received <= Run(p, steps).sent
  {
    RunInv(p, steps);
    ReceivedIsPrefix(p, Run(p, steps));
  }

  lemma ReceivedIsPrefix(p: Params, s: Sys)
    requires Inv(p, s)
    ensures s.received <= s.sent
  {
    hide RcvInv, SndInv, BytesRead, Stream, Flatten, PacketInv;
    ReadPlusStream(p, s.rcv, s.chunks);
    AckedChunks(p, s.rcv, s.chunks);
    FlattenPrefix(s.chunks, s.rcv.lastAck - p.isn);
    var acked := Flatten(s.chunks[..s.rcv.lastAck - p.isn]);
    assert acked[..|s.received|] == s.received;
  }

  /** Once the receiver has acknowledged everything and its buffer has been read empty, nothing is missing. */
  lemma {:induction false} CompleteDelivery(p: Params, steps: seq<Step>)
    requires Sensible(p)
    ensures var s := Run(p, steps);
      s.rcv.lastAck == p.isn + |s.chunks| && s.rcv.buf.acked == 0 ==> s.received == s.sent
  {
    hide Run;
    RunInv(p, steps);
    EverythingRead(p, Run(p, steps));
  }

  lemma EverythingRead(p: Params, s: Sys)
    requires Inv(p, s)
    ensures s.rcv.lastAck == p.isn + |s.chunks| && s.rcv.buf.acked == 0 ==> s.received == s.sent
  {
    if s.rcv.lastAck == p.isn + |s.chunks| && s.rcv.buf.acked == 0 {
      hide SndInv, PacketInv, Flatten;
      assert s.chunks[..|s.chunks|] == s.chunks;
    }
  }

  /** All transmissions of one sequence number, first or repeated, carry the same packet. */
  lemma {:induction false} SamePayload(p: Params, steps: seq<Step>, t: int, a: Chunk, b: Chunk)
    requires Sensible(p)
    requires Data(t, a) in Run(p, steps).net && Data(t, b) in Run(p, steps).net
    ensures a == b
  {
    hide Run;
    RunInv(p, steps);
    assert PacketInv(p, Run(p, steps), Data(t, a)) && PacketInv(p, Run(p, steps), Data(t, b));
  }

  /** The sender gives up a packet only after the receiver has it in order, and never mistakes an honest
      acknowledgement or loss report for an attack. */
  lemma {:induction false} NothingReleasedEarly(p: Params, steps: seq<Step>)
    requires Sensible(p)
    ensures var s := Run(p, steps);
      !s.snd.broken && s.snd.lastDataAck <= s.rcv.lastAck
  {
    hide Run;
    RunInv(p, steps);
  }

  /** What is outstanding fits the negotiated window, so it always fits the sender's loss list of twice that
      size. */
  lemma {:induction false} OutstandingBounded(p: Params, steps: seq<Step>)
    requires Sensible(p)
    ensures var snd := Run(p, steps).snd;
      && snd.lastAck + snd.window <= snd.lastDataAck + p.window
      && snd.curr + 1 - snd.lastDataAck <= p.window
      && (forall x, y | x in snd.loss && y in snd.loss :: x - y < p.window)
  {
    hide Run;
    RunInv(p, steps);
  }

  /** The receiver's loss list is what has not arrived between its acknowledged point and the largest number
      received; every number it ever acknowledged has arrived, and each slot in use holds its own packet. */
  lemma {:induction false} LossListExact(p: Params, steps: seq<Step>)
    requires Sensible(p)
    ensures var s := Run(p, steps);
      && (forall x :: x in s.rcv.loss <==> s.rcv.lastAck <= x <= s.rcv.curr && !Filled(s.rcv, x))
      && (forall x | Filled(s.rcv, x) ::
            0 <= x - p.isn < |s.chunks| && s.rcv.buf.cells[x - ReadPoint(s.rcv)].chunk == s.chunks[x - p.isn])
      && (forall ack, w, x | FullAck(ack, w) in s.net && ReadPoint(s.rcv) <= x < ack :: Filled(s.rcv, x))
      && (forall ack, x | LiteAck(ack) in s.net && ReadPoint(s.rcv) <= x < ack :: Filled(s.rcv, x))
  {
    hide Run;
    RunInv(p, steps);
    SlotsExact(p, Run(p, steps));
    AckedIsFilled(p, Run(p, steps));
  }

  lemma SlotsExact(p: Params, s: Sys)
    requires Inv(p, s)
    ensures forall x :: x in s.rcv.loss <==> s.rcv.lastAck <= x <= s.rcv.curr && !Filled(s.rcv, x)
    ensures forall x | Filled(s.rcv, x) ::
      0 <= x - p.isn < |s.chunks| && s.rcv.buf.cells[x - ReadPoint(s.rcv)].chunk == s.chunks[x - p.isn]
  {
  }

  lemma AckedIsFilled(p: Params, s: Sys)
    requires Inv(p, s)
    ensures forall ack, w, x | FullAck(ack, w) in s.net && ReadPoint(s.rcv) <= x < ack :: Filled(s.rcv, x)
    ensures forall ack, x | LiteAck(ack) in s.net && ReadPoint(s.rcv) <= x < ack :: Filled(s.rcv, x)
  {
    BelowFirstMissing(p, s.rcv, s.chunks);
    hide RcvInv, SndInv, BytesRead, Filled;
    forall ack, w, x | FullAck(ack, w) in s.net && ReadPoint(s.rcv) <= x < ack
      ensures Filled(s.rcv, x)
    {
      assert PacketInv(p, s, FullAck(ack, w));
    }
    forall ack, x | LiteAck(ack) in s.net && ReadPoint(s.rcv) <= x < ack
      ensures Filled(s.rcv, x)
    {
      assert PacketInv(p, s, LiteAck(ack));
    }
  }

  /** A packet that is delivered carries numbers less than the threshold away from every number its addressee
      compares them with, so wrapped and unbounded numbers compare alike. The one exception is what is compared with
      the confirmed acknowledgement. */
  lemma {:induction false} YoungIsNear(p: Params, steps: seq<Step>, pkt: Packet)
    requires Sensible(p) && 2 * p.window < SEQ_TH
    requires pkt in Run(p, steps).net && Young(Run(p, steps).snd, pkt)
    ensures IsNear(Run(p, steps), pkt)
  {
    hide Run;
    RunInv(p, steps);
    NearAll(p, Run(p, steps), pkt);
  }

  ghost predicate Near(a: int, b: int) {
    -SEQ_TH < a - b < SEQ_TH
  }

  ghost predicate IsNear(s: Sys, pkt: Packet) {
    match pkt
    case Data(t, chunk) => Near(t, s.rcv.lastAck) && Near(t, s.rcv.curr + 1) && Near(t, s.rcv.curr)
    case FullAck(ack, window) => Near(ack, s.snd.lastAck) && Near(ack, s.snd.lastDataAck) && Near(ack, s.snd.curr + 1)
    case LiteAck(ack) => Near(ack, s.snd.lastAck) && ack <= s.snd.curr + 1
    case Nak(runs) => forall i | 0 <= i < |runs| ::
      Near(runs[i].lo, runs[i].hi) && Near(runs[i].lo, s.snd.lastAck) && Near(runs[i].hi, s.snd.lastAck)
      && Near(runs[i].hi, s.snd.curr) && Near(runs[i].lo, s.snd.curr)
    case AckAck(ack) => ack <= s.rcv.lastAck && s.rcv.lastAckAck - ack < SEQ_TH
  }

  lemma NearAll(p: Params, s: Sys, pkt: Packet)
    requires Sensible(p) && 2 * p.window < SEQ_TH && Inv(p, s) && pkt in s.net && Young(s.snd, pkt)
    ensures IsNear(s, pkt)
  {
    assert PacketInv(p, s, pkt);
  }
}
