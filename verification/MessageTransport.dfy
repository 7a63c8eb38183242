/** Message mode over the lossy transport: messages are handed to the sender's buffer, their packets go through the
    protocol, and messages are read from the receiver's buffer, where a packet read ahead of its turn stays marked. */
module MessageTransport {
  import opened Basics
  import opened Packets
  import opened Intervals
  import opened SeqNo
  import opened RcvBuffers
  import M = Messages
  import P = Protocol
  import S = SndBuffers

  /** The protocol's state, its receive buffer in message mode; the messages handed over; and those read. */
  datatype Mail = Mail(sys: P.Sys, calls: seq<M.Call>, out: seq<M.Reading>)

  /** A message is handed over or asked for, or something happens within the transport. */
  datatype Step =
    | SendMessage(data: seq<byte>, order: bool)
    | ReadMessage(len: nat)
    | Within(step: P.Step)

  /** A message is taken over as a whole, when the send buffer has room for it, or not at all. */
  predicate Fits(p: P.Params, s: P.Snd, data: seq<byte>) {
    data != [] && |data| <= (p.sndLimit - |s.buf.blocks|) * p.mss
  }

  /** The receive buffer and what has been read from it, with packets numbered from zero. */
  ghost function Box(p: P.Params, m: Mail): M.State
    requires p.isn <= P.ReadPoint(m.sys.rcv)
  {
    BoxOf(p, m.sys.rcv, m.out)
  }

  ghost function BoxOf(p: P.Params, r: P.Rcv, out: seq<M.Reading>): M.State
    requires p.isn <= P.ReadPoint(r)
  {
    M.State(P.ReadPoint(r) - p.isn, r.buf, out)
  }

  ghost function Next(p: P.Params, m: Mail, step: Step): Mail
    requires P.Sensible(p)
  {
    var snd, rcv := m.sys.snd, m.sys.rcv;
    match step
    case SendMessage(data, order) =>
      if !Fits(p, snd, data) then m
      else
        m.(sys := m.sys.(snd := snd.(buf := S.AddBuffer(snd.buf, data, p.mss, order)), sent := m.sys.sent + data,
                         chunks := m.sys.chunks + S.Chop(data, p.mss, snd.buf.nextMsgNo, order, true)),
           calls := m.calls + [M.Call(data, order, snd.buf.nextMsgNo)])
    case ReadMessage(len) =>
      if !Bounded(rcv.buf) || P.ReadPoint(rcv) < p.isn then m
      else
        var box := M.AfterRead(Box(p, m), len);
        m.(sys := m.sys.(rcv := rcv.(buf := box.buf)), out := box.out)
    case Within(step) =>
      if step.AppSend? || step.AppRecv? then m else m.(sys := P.Next(p, m.sys, step))
  }

  ghost function Init(p: P.Params): Mail
    requires P.Sensible(p)
  {
    Mail(P.Init(p), [], [])
  }

  ghost function Run(p: P.Params, steps: seq<Step>): Mail
    requires P.Sensible(p)
  {
    if steps == [] then Init(p) else Next(p, Run(p, steps[..|steps| - 1]), steps[|steps| - 1])
  }

  // ---------- the buffer without its marks ----------

  function PlainCell(c: Cell): Cell {
    if c.Held? then Held(c.chunk, 1) else Empty
  }

  function PlainCells(cells: seq<Cell>): (r: seq<Cell>)
    ensures |r| == |cells|
  {
    seq(|cells|, i requires 0 <= i < |cells| => PlainCell(cells[i]))
  }

  /** What the transport sees of the buffer. */
  function PlainBuf(b: Buf): Buf {
    b.(cells := PlainCells(b.cells))
  }

  function PlainRcv(r: P.Rcv): P.Rcv {
    r.(buf := PlainBuf(r.buf))
  }

  /** The state of a transport in stream mode of which all has been read that has left the buffer. */
  ghost function Plain(p: P.Params, m: Mail): P.Sys
    requires P.RcvInv(p, PlainRcv(m.sys.rcv), m.sys.chunks)
  {
    var rcv := PlainRcv(m.sys.rcv);
    m.sys.(rcv := rcv, sent := Flatten(m.sys.chunks), received := P.BytesRead(p, rcv, m.sys.chunks))
  }

  lemma PlainAdd(b: Buf, chunk: Chunk, offset: nat)
    requires b.acked + offset < |b.cells|
    ensures AddData(PlainBuf(b), chunk, offset) == (PlainBuf(AddData(b, chunk, offset).0), AddData(b, chunk, offset).1)
  {
    assert PlainCells(b.cells[b.acked + offset := Held(chunk, 1)])
      == PlainCells(b.cells)[b.acked + offset := Held(chunk, 1)];
  }

  lemma PlainData(r: P.Rcv, t: int, chunk: Chunk)
    ensures P.OnData(PlainRcv(r), t, chunk) == (PlainRcv(P.OnData(r, t, chunk).0), P.OnData(r, t, chunk).1)
  {
    var offset := t - r.lastAck;
    if 0 <= offset < AvailSize(r.buf) {
      PlainAdd(r.buf, chunk, offset);
    }
    hide AddData, PlainCells, Range;
  }

  lemma PlainAck(r: P.Rcv, lite: bool, due: bool)
    ensures P.SendAck(PlainRcv(r), lite, due) == (PlainRcv(P.SendAck(r, lite, due).0), P.SendAck(r, lite, due).1)
  {
    hide Newer, PlainCells;
  }

  /** The transport does not look at the marks. */
  lemma PlainNext(p: P.Params, s: P.Sys, step: P.Step, sent: seq<byte>, received: seq<byte>)
    requires P.Sensible(p) && !step.AppSend? && !step.AppRecv?
    ensures var plain := s.(rcv := PlainRcv(s.rcv), sent := sent, received := received);
      var next := P.Next(p, s, step);
      && P.Next(p, plain, step) == next.(rcv := PlainRcv(next.rcv), sent := sent, received := received)
      && next.chunks == s.chunks
  {
    match step {
      case Deliver(pkt, answer) =>
        if pkt.Data? { PlainData(s.rcv, pkt.seqno, pkt.chunk); }
      case Acknowledge(lite, due) => PlainAck(s.rcv, lite, due);
      case _ =>
    }
    hide P.OnData, P.SendAck, P.OnFullAck, P.OnNak, P.OnTimeout, P.PopLoss, P.Retransmit, P.SendNew, P.Young,
      PlainCells, Newer, Range;
  }

  // ---------- the invariant ----------

  /** The transport without the marks keeps its invariant, and the buffer with them keeps that of the message mode. */
  ghost predicate Inv(p: P.Params, m: Mail) {
    && P.Sensible(p) && M.Numbered(m.calls) && S.IsMsgNo(m.sys.snd.buf.nextMsgNo)
    && m.sys.chunks == M.Sent(m.calls, p.mss) && m.sys.rcv.buf.notch == 0
    && P.RcvInv(p, PlainRcv(m.sys.rcv), m.sys.chunks) && P.Inv(p, Plain(p, m))
    && M.Inv(m.sys.chunks, Box(p, m))
  }

  lemma InitInv(p: P.Params)
    requires P.Sensible(p)
    ensures Inv(p, Init(p))
  {
    P.InitInv(p);
    var r := P.Init(p).rcv;
    assert PlainCells(r.buf.cells) == r.buf.cells;
    assert Plain(p, Init(p)) == P.Init(p);
    BoxInit(p);
    hide P.Inv, M.Inv, P.RcvInv, Plain, Box;
  }

  lemma BoxInit(p: P.Params)
    requires P.Sensible(p)
    ensures M.Inv([], Box(p, Init(p)))
  {
  }

  // ---------- a message is handed over ----------

  lemma SlotsGrow(s: seq<Chunk>, more: seq<Chunk>, st: M.State)
    requires M.Slots(s, st)
    ensures M.Slots(s + more, st)
  {
    hide M.InRead;
  }

  lemma ReadingsGrow(s: seq<Chunk>, more: seq<Chunk>, base: nat, out: seq<M.Reading>)
    requires M.Readings(s, base, out)
    ensures M.Readings(s + more, base, out)
  {
    hide M.IsMessage, Flatten, Cut, OrderFlag;
    forall a | 0 <= a < |out|
      ensures M.IsMessage(s + more, out[a].h, out[a].t) && 0 <= out[a].h <= out[a].t < |s|
      ensures (s + more)[out[a].h..out[a].t + 1] == s[out[a].h..out[a].t + 1] && (s + more)[out[a].t] == s[out[a].t]
    {
      M.MessageExtends(s, more, out[a].h, out[a].t);
      Bounds(s, out[a].h, out[a].t);
    }
  }

  lemma Bounds(s: seq<Chunk>, h: int, t: int)
    requires M.IsMessage(s, h, t)
    ensures 0 <= h <= t < |s|
  {
  }

  lemma BoxGrows(s: seq<Chunk>, more: seq<Chunk>, st: M.State)
    requires M.Inv(s, st)
    ensures M.Inv(s + more, st)
  {
    SlotsGrow(s, more, st);
    ReadingsGrow(s, more, st.base, st.out);
    hide M.Slots, M.Readings;
  }

  /** The transport takes over more packets. */
  lemma TransportGrows(p: P.Params, s: P.Sys, more: seq<Chunk>, msgNo: bv32, sent: seq<byte>)
    requires P.Inv(p, s) && sent == Flatten(s.chunks + more)
    ensures var buf := s.snd.buf.(blocks := s.snd.buf.blocks + more, nextMsgNo := msgNo);
      P.Inv(p, s.(snd := s.snd.(buf := buf), chunks := s.chunks + more, sent := sent))
    ensures P.RcvInv(p, s.rcv, s.chunks) && P.RcvInv(p, s.rcv, s.chunks + more)
    ensures P.BytesRead(p, s.rcv, s.chunks + more) == P.BytesRead(p, s.rcv, s.chunks)
  {
    P.SndGrows(p, s.snd, s.chunks, more, msgNo);
    P.RcvGrows(p, s.rcv, s.chunks, more);
    var buf := s.snd.buf.(blocks := s.snd.buf.blocks + more, nextMsgNo := msgNo);
    var s' := s.(snd := s.snd.(buf := buf), chunks := s.chunks + more, sent := sent);
    hide P.RcvInv, P.SndInv, P.BytesRead, Flatten;
    forall pkt | pkt in s'.net
      ensures P.PacketInv(p, s', pkt)
    {
      assert P.PacketInv(p, s, pkt);
    }
  }

  lemma SendKeeps(p: P.Params, m: Mail, data: seq<byte>, order: bool)
    requires Inv(p, m)
    ensures Inv(p, Next(p, m, SendMessage(data, order)))
  {
    hide P.Inv, P.RcvInv, M.Inv, P.BytesRead, Flatten, S.Chop, S.NextMsgNo, PlainRcv;
    var buf := m.sys.snd.buf;
    var next := Next(p, m, SendMessage(data, order));
    if Fits(p, m.sys.snd, data) {
      var more := S.Chop(data, p.mss, buf.nextMsgNo, order, true);
      assert next.calls[..|m.calls|] == m.calls;
      TransportGrows(p, Plain(p, m), more, S.NextMsgNo(buf.nextMsgNo), Flatten(m.sys.chunks + more));
      BoxGrows(m.sys.chunks, more, Box(p, m));
      assert Box(p, next) == Box(p, m);
      assert m.sys.chunks + more == M.Sent(next.calls, p.mss);
    }
  }

  // ---------- a message is read ----------

  /** The buffer has lost d slots in front; marks aside, the others are as they were. */
  ghost predicate Shifted(was: Buf, now: Buf, d: int) {
    && 0 <= d <= was.acked <= |was.cells| == |now.cells| && now.acked == was.acked - d
    && now.maxPos == was.maxPos && now.notch == was.notch
    && PlainCells(now.cells) == PlainCells(was.cells)[d..] + Blank(d)
  }

  lemma ShiftedTwice(a: Buf, b: Buf, c: Buf, d: int, e: int)
    requires Shifted(a, b, d) && Shifted(b, c, e)
    ensures Shifted(a, c, d + e)
  {
    hide PlainCells;
    var cells := PlainCells(a.cells);
    assert (cells[d..] + Blank(d))[e..] + Blank(e) == cells[d + e..] + Blank(d + e);
  }

  lemma DropShifts(b: Buf)
    requires 0 < b.acked <= |b.cells|
    ensures Shifted(b, Drop(b), 1)
  {
    assert PlainCells(b.cells[1..] + [Empty]) == PlainCells(b.cells)[1..] + Blank(1);
  }

  lemma NothingShifts(b: Buf)
    requires b.acked <= |b.cells|
    ensures Shifted(b, b, 0)
  {
    assert PlainCells(b.cells)[0..] + Blank(0) == PlainCells(b.cells);
  }

  lemma {:induction false} SkipShifts(b: Buf)
    requires b.acked <= |b.cells|
    ensures Shifted(b, SkipBad(b), b.acked - SkipBad(b).acked)
    decreases b.acked
  {
    if b.acked == 0 || GoodStart(b) {
      NothingShifts(b);
    } else {
      DropShifts(b);
      SkipShifts(Drop(b));
      ShiftedTwice(b, Drop(b), SkipBad(b), 1, b.acked - 1 - SkipBad(b).acked);
    }
    hide Shifted, GoodStart;
  }

  lemma MarkedPlain(cells: seq<Cell>, p: nat, q: nat)
    requires p <= q <= |cells|
    ensures PlainCells(Marked(cells, p, q, ReadAlready)) == PlainCells(cells)
  {
    forall i | 0 <= i < |cells|
      ensures PlainCell(Marked(cells, p, q, ReadAlready)[i]) == PlainCell(cells[i])
    {
      assert Marked(cells, p, q, ReadAlready)[i] == if p <= i < q then ReadAlready(cells[i]) else cells[i];
    }
  }

  lemma FreedPlain(cells: seq<Cell>, q: nat)
    requires q <= |cells|
    ensures var now := Marked(cells, 0, q, Freed);
      PlainCells(now[q..] + now[..q]) == PlainCells(cells)[q..] + Blank(q)
  {
    var now := Marked(cells, 0, q, Freed);
    forall i | 0 <= i < |cells|
      ensures PlainCell((now[q..] + now[..q])[i]) == (PlainCells(cells)[q..] + Blank(q))[i]
    {
      var j := if i < |cells| - q then q + i else i - (|cells| - q);
      assert (now[q..] + now[..q])[i] == now[j] == if j < q then Freed(cells[j]) else cells[j];
    }
  }

  lemma TakeShifts(b: Buf, p: nat, q: nat)
    requires p <= q < |b.cells| && b.acked <= |b.cells| && (q < b.acked ==> p == 0)
    ensures Shifted(b, TakeMsg(b, p, q), if q < b.acked then q + 1 else 0)
  {
    if q < b.acked {
      FreedPlain(b.cells, q + 1);
    } else {
      MarkedPlain(b.cells, p, q + 1);
      NothingShifts(b);
    }
    hide PlainCells, Marked;
  }

  lemma SkippedShifts(st: M.State)
    requires st.buf.acked <= |st.buf.cells|
    ensures var mid := M.Skipped(st); var d := st.buf.acked - mid.buf.acked;
      Shifted(st.buf, mid.buf, d) && mid.base == st.base + d
  {
    SkipShifts(st.buf);
    hide Shifted;
  }

  lemma TakenShifts(st: M.State, p: nat, q: nat, len: nat)
    requires p <= q < |st.buf.cells| && st.buf.acked <= |st.buf.cells| && (q < st.buf.acked ==> p == 0)
    ensures var now := M.TakenState(st, p, q, len); var d := st.buf.acked - now.buf.acked;
      Shifted(st.buf, now.buf, d) && now.base == st.base + d
  {
    TakeShifts(st.buf, p, q);
    hide PlainCells, Marked;
  }

  /** What is found in the acknowledged part begins in the first slot. */
  lemma FoundInFront(s: seq<Chunk>, st: M.State)
    requires M.Framed(s) && M.Inv(s, st) && (st.buf.acked == 0 || GoodStart(st.buf))
    ensures Bounded(st.buf) && st.buf.acked <= |st.buf.cells|
    ensures var r := FindMsg(st.buf, 0, -1);
      r.Found? ==> r.p <= r.q < |st.buf.cells| && (r.q < st.buf.acked ==> r.p == 0)
  {
    M.ScanIsReadable(s, st);
    hide M.Framed, M.IsMessage, FindMsg, GoodStart, M.Readings, M.Progress, M.InRead;
  }

  /** A read makes the buffer lose slots in front, and nothing else as the transport sees it. */
  lemma ReadShifts(s: seq<Chunk>, st: M.State, len: nat)
    requires M.Framed(s) && M.Inv(s, st)
    ensures Bounded(st.buf)
    ensures var now := M.AfterRead(st, len);
      var d := st.buf.acked - now.buf.acked; Shifted(st.buf, now.buf, d) && now.base == st.base + d
  {
    M.NothingThere(s, st, len);
    hide *;
    if st.buf.acked != 0 || st.buf.maxPos != 0 {
      SearchShifts(s, st, len);
    } else {
      NothingShifts(st.buf);
    }
  }

  lemma SearchShifts(s: seq<Chunk>, st: M.State, len: nat)
    requires M.Framed(s) && M.Inv(s, st) && Bounded(st.buf) && (st.buf.acked != 0 || st.buf.maxPos != 0)
    requires st.buf.acked <= |st.buf.cells|
    ensures var now := M.AfterRead(st, len);
      var d := st.buf.acked - now.buf.acked; Shifted(st.buf, now.buf, d) && now.base == st.base + d
  {
    hide *;
    SkippedShifts(st);
    M.SkipKeeps(s, st);
    M.AfterReadIs(st, len);
    var mid := M.Skipped(st);
    FoundInFront(s, mid);
    var r := FindMsg(mid.buf, 0, -1);
    if r.Found? {
      TakenShifts(mid, r.p, r.q, len);
      var now := M.TakenState(mid, r.p, r.q, len);
      ShiftedTwice(st.buf, mid.buf, now.buf, st.buf.acked - mid.buf.acked, mid.buf.acked - now.buf.acked);
    }
  }

  /** Losing slots in front is what reading is for the transport. */
  lemma ShiftedRcv(p: P.Params, r: P.Rcv, chunks: seq<Chunk>, b: Buf, d: int)
    requires P.RcvInv(p, PlainRcv(r), chunks) && Shifted(r.buf, b, d) && r.buf.notch == 0
    ensures P.RcvInv(p, PlainRcv(r.(buf := b)), chunks)
  {
    var was, now := PlainRcv(r), PlainRcv(r.(buf := b));
    forall i | 0 <= i < now.buf.acked
      ensures now.buf.cells[i].Held?
    {
      assert now.buf.cells[i] == was.buf.cells[d + i];
    }
    P.RecvSlots(p, was, chunks, now);
  }

  /** The receive buffer changes in a way that keeps the receiver's part of the invariant. */
  lemma OtherBuffer(p: P.Params, s: P.Sys, rcv: P.Rcv)
    requires P.Inv(p, s) && P.RcvInv(p, rcv, s.chunks) && rcv == s.rcv.(buf := rcv.buf)
    ensures P.Inv(p, s.(rcv := rcv, received := P.BytesRead(p, rcv, s.chunks)))
  {
    var s' := s.(rcv := rcv, received := P.BytesRead(p, rcv, s.chunks));
    hide P.SndInv, P.RcvInv, P.BytesRead, Flatten;
    forall pkt | pkt in s'.net
      ensures P.PacketInv(p, s', pkt)
    {
      assert P.PacketInv(p, s, pkt);
    }
  }

  lemma PointKept(p: P.Params, r: P.Rcv, chunks: seq<Chunk>)
    requires P.RcvInv(p, PlainRcv(r), chunks)
    ensures p.isn <= P.ReadPoint(r) && r.lastAck <= P.FirstMissing(r) <= r.curr + 1 <= p.isn + |chunks|
    ensures r.curr - P.ReadPoint(r) <= |r.buf.cells| - 2
    ensures forall i | r.buf.acked <= i < r.buf.acked + P.FirstMissing(r) - r.lastAck :: r.buf.cells[i].Held?
  {
    P.BelowFirstMissing(p, PlainRcv(r), chunks);
    assert P.FirstMissing(PlainRcv(r)) == P.FirstMissing(r);
    hide P.FirstMissing;
    forall i | r.buf.acked <= i < r.buf.acked + P.FirstMissing(r) - r.lastAck
      ensures r.buf.cells[i].Held?
    {
      assert P.Filled(PlainRcv(r), P.ReadPoint(r) + i);
    }
  }

  lemma ReadKeeps(p: P.Params, m: Mail, len: nat)
    requires Inv(p, m)
    ensures Inv(p, Next(p, m, ReadMessage(len)))
  {
    hide P.Inv, P.RcvInv, M.Inv, P.BytesRead, Flatten, M.AfterRead, Shifted, PlainBuf, Bounded, M.Framed, M.Numbered;
    var next := Next(p, m, ReadMessage(len));
    var box := Box(p, m);
    PointKept(p, m.sys.rcv, m.sys.chunks);
    M.SentFramed(m.calls, p.mss);
    ReadShifts(m.sys.chunks, box, len);
    M.ReadKeeps(m.sys.chunks, box, len);
    var now := M.AfterRead(box, len);
    var d := box.buf.acked - now.buf.acked;
    ShiftedNotch(box.buf, now.buf, d);
    ShiftedRcv(p, m.sys.rcv, m.sys.chunks, now.buf, d);
    OtherBuffer(p, Plain(p, m), PlainRcv(next.sys.rcv));
    assert Box(p, next) == now;
  }

  lemma ShiftedNotch(was: Buf, now: Buf, d: int)
    requires Shifted(was, now, d)
    ensures now.notch == was.notch
  {
  }

  // ---------- something happens within the transport ----------

  /** The receiver's part of the invariant. */
  ghost predicate BoxInv(p: P.Params, r: P.Rcv, chunks: seq<Chunk>, out: seq<M.Reading>) {
    p.isn <= P.ReadPoint(r) && r.buf.notch == 0 && M.Inv(chunks, BoxOf(p, r, out))
  }

  lemma ArriveBox(p: P.Params, r: P.Rcv, chunks: seq<Chunk>, out: seq<M.Reading>, t: int, chunk: Chunk)
    requires BoxInv(p, r, chunks, out) && p.isn <= t < p.isn + |chunks| && chunk == chunks[t - p.isn]
    ensures BoxInv(p, P.OnData(r, t, chunk).0, chunks, out)
  {
    hide M.Inv, Range;
    var next := P.OnData(r, t, chunk).0;
    var offset := t - r.lastAck;
    if 0 <= offset < AvailSize(r.buf) {
      M.ArriveKeeps(chunks, BoxOf(p, r, out), t - p.isn);
      assert BoxOf(p, next, out) == M.Next(chunks, BoxOf(p, r, out), M.Arrive(t - p.isn));
    }
  }

  lemma AckBox(p: P.Params, r: P.Rcv, chunks: seq<Chunk>, out: seq<M.Reading>, lite: bool, due: bool)
    requires BoxInv(p, r, chunks, out) && P.RcvInv(p, PlainRcv(r), chunks)
    ensures BoxInv(p, P.SendAck(r, lite, due).0, chunks, out)
  {
    hide M.Inv, P.RcvInv, P.FirstMissing, PlainRcv, Newer, Wrap;
    PointKept(p, r, chunks);
    var n := P.FirstMissing(r) - r.lastAck;
    var next := P.SendAck(r, lite, due).0;
    if n > 0 && next.lastAck != r.lastAck {
      M.AcknowledgeKeeps(chunks, BoxOf(p, r, out), n);
      assert BoxOf(p, next, out) == M.Next(chunks, BoxOf(p, r, out), M.Acknowledge(n));
    }
  }

  lemma WithinBox(p: P.Params, s: P.Sys, step: P.Step, out: seq<M.Reading>)
    requires P.Sensible(p) && !step.AppSend? && !step.AppRecv?
    requires BoxInv(p, s.rcv, s.chunks, out) && P.RcvInv(p, PlainRcv(s.rcv), s.chunks)
    requires forall t, chunk | P.Data(t, chunk) in s.net ::
      p.isn <= t < p.isn + |s.chunks| && chunk == s.chunks[t - p.isn]
    ensures var next := P.Next(p, s, step);
      BoxInv(p, next.rcv, s.chunks, out) && next.snd.buf.nextMsgNo == s.snd.buf.nextMsgNo
  {
    hide P.RcvInv, BoxInv, P.OnData, P.SendAck, P.Young, PlainRcv, Newer, Range;
    match step {
      case Deliver(pkt, answer) =>
        if pkt.Data? && pkt in s.net { ArriveBox(p, s.rcv, s.chunks, out, pkt.seqno, pkt.chunk); }
        if pkt.AckAck? { OtherAckAck(p, s.rcv, s.chunks, out, pkt.ack); }
        if pkt.Nak? { SameBlocks(s.snd, pkt.runs); }
      case Acknowledge(lite, due) => AckBox(p, s.rcv, s.chunks, out, lite, due);
      case _ =>
    }
  }

  lemma {:induction false} SameBlocks(s: P.Snd, runs: seq<Node>)
    ensures P.OnNak(s, runs).buf == s.buf
    decreases |runs|
  {
    hide Range;
    if runs != [] && !P.Impossible(s, runs[0]) {
      SameBlocks(P.OnLoss(s, runs[0]), runs[1..]);
    }
  }

  lemma OtherAckAck(p: P.Params, r: P.Rcv, chunks: seq<Chunk>, out: seq<M.Reading>, ack: int)
    requires BoxInv(p, r, chunks, out)
    ensures BoxInv(p, P.OnAckAck(r, ack), chunks, out)
  {
    hide M.Inv, Newer;
    assert BoxOf(p, P.OnAckAck(r, ack), out) == BoxOf(p, r, out);
  }

  lemma WithinKeeps(p: P.Params, m: Mail, step: P.Step)
    requires Inv(p, m) && !step.AppSend? && !step.AppRecv?
    ensures Inv(p, Next(p, m, Within(step)))
  {
    hide P.Inv, P.RcvInv, M.Inv, P.BytesRead, Flatten, P.Next, PlainRcv, M.Numbered, M.Sent, S.IsMsgNo;
    var plain := Plain(p, m);
    var next := P.Next(p, m.sys, step);
    P.NextKeeps(p, plain, step);
    PlainNext(p, m.sys, step, plain.sent, plain.received);
    InvParts(p, P.Next(p, plain, step));
    InvParts(p, plain);
    WithinBox(p, m.sys, step, m.out);
    assert P.Next(p, plain, step) == next.(rcv := PlainRcv(next.rcv), sent := plain.sent, received := plain.received);
    assert Plain(p, m.(sys := next)) == P.Next(p, plain, step);
  }

  lemma InvParts(p: P.Params, s: P.Sys)
    requires P.Inv(p, s)
    ensures P.RcvInv(p, s.rcv, s.chunks) && s.received == P.BytesRead(p, s.rcv, s.chunks) && s.sent == Flatten(s.chunks)
    ensures forall t, chunk | P.Data(t, chunk) in s.net ::
      p.isn <= t < p.isn + |s.chunks| && chunk == s.chunks[t - p.isn]
  {
    hide P.RcvInv, P.SndInv, P.BytesRead, Flatten;
    forall t, chunk | P.Data(t, chunk) in s.net
      ensures p.isn <= t < p.isn + |s.chunks| && chunk == s.chunks[t - p.isn]
    {
      assert P.PacketInv(p, s, P.Data(t, chunk));
    }
  }

  // ---------- every run ----------

  lemma {:induction false} RunInv(p: P.Params, steps: seq<Step>)
    requires P.Sensible(p)
    ensures Inv(p, Run(p, steps))
  {
    if steps == [] {
      InitInv(p);
    } else {
      var m, step := Run(p, steps[..|steps| - 1]), steps[|steps| - 1];
      RunInv(p, steps[..|steps| - 1]);
      match step
      case SendMessage(data, order) => SendKeeps(p, m, data, order);
      case ReadMessage(len) => ReadKeeps(p, m, len);
      case Within(inner) =>
        if !inner.AppSend? && !inner.AppRecv? { WithinKeeps(p, m, inner); }
    }
    hide Inv;
  }

  /** Over every run of the transport, whatever is lost, repeated and reordered, every message read is the payload of
      exactly one message handed over, cut to the reader's length; none is read twice; and those that keep their order
      are read in the order in which they were handed over. */
  lemma {:induction false} MessagesSafety(p: P.Params, steps: seq<Step>) returns (of: seq<nat>)
    requires P.Sensible(p)
    ensures M.EachOnce(Run(p, steps).calls, Run(p, steps).out, of)
  {
    RunInv(p, steps);
    hide Run, P.Inv, P.RcvInv, M.Inv, M.EachOnce;
    of := M.OncePerCall(Run(p, steps).calls, p.mss, Box(p, Run(p, steps)));
  }

  /** A call has its packets in the acknowledged part of the buffer or in front of it. */
  ghost predicate Acknowledged(p: P.Params, m: Mail, i: nat)
    requires p.mss > 0 && i < |m.calls|
  {
    p.isn + |M.Sent(m.calls[..i + 1], p.mss)| <= m.sys.rcv.lastAck
  }

  ghost predicate HasBeenRead(p: P.Params, m: Mail, i: nat)
    requires p.mss > 0 && i < |m.calls|
  {
    exists a :: 0 <= a < |m.out| && m.out[a].h == |M.Sent(m.calls[..i], p.mss)|
  }

  /** When a read finds nothing, every message that the receiver has acknowledged up to its end has been read: the
      transport gives up no message, and the buffer hides none. */
  lemma {:induction false} NothingLost(p: P.Params, steps: seq<Step>, len: nat, i: nat)
    requires P.Sensible(p) && i < |Run(p, steps).calls| && Run(p, steps).calls[i].data != []
    requires Next(p, Run(p, steps), ReadMessage(len)).out == Run(p, steps).out
    requires Acknowledged(p, Run(p, steps), i)
    ensures HasBeenRead(p, Run(p, steps), i)
  {
    RunInv(p, steps);
    var m := Run(p, steps);
    LeftBehind(p, m, len, i);
    hide Run, Next, Inv;
  }

  lemma LeftBehind(p: P.Params, m: Mail, len: nat, i: nat)
    requires Inv(p, m) && i < |m.calls| && m.calls[i].data != []
    requires Next(p, m, ReadMessage(len)).out == m.out && Acknowledged(p, m, i)
    ensures HasBeenRead(p, m, i)
  {
    hide P.Inv, P.RcvInv, M.Inv, P.BytesRead, Flatten, M.AfterRead, Shifted, PlainBuf, Bounded, M.Framed, M.Numbered,
      M.Sent, M.IsMessage;
    var box := Box(p, m);
    M.SentFramed(m.calls, p.mss);
    ReadShifts(m.sys.chunks, box, len);
    ShiftedAcked(box.buf, M.AfterRead(box, len).buf, box.buf.acked - M.AfterRead(box, len).buf.acked);
    M.CallIsMessage(m.calls, p.mss, i);
    M.LeftBehind(m.sys.chunks, box, len, |M.Sent(m.calls[..i], p.mss)|, |M.Sent(m.calls[..i + 1], p.mss)| - 1);
  }

  lemma ShiftedAcked(was: Buf, now: Buf, d: int)
    requires Shifted(was, now, d)
    ensures now.acked == was.acked - d
  {
  }

  /** All packets of a message are in the receive buffer, and it has not been read. */
  ghost predicate Arrived(p: P.Params, m: Mail, i: nat)
    requires p.mss > 0 && i < |m.calls|
  {
    var h, t := |M.Sent(m.calls[..i], p.mss)|, |M.Sent(m.calls[..i + 1], p.mss)| - 1;
    p.isn <= P.ReadPoint(m.sys.rcv) && 0 <= t && M.Arrived(m.sys.chunks, Box(p, m), h, t)
  }

  /** Over every run of the transport: when a message that need not keep its order has arrived in whole and has not
      been read, the next read finds a message if and only if anything is acknowledged or has arrived behind the first
      packet awaited. */
  lemma {:induction false} FoundAhead(p: P.Params, steps: seq<Step>, len: nat, i: nat)
    requires P.Sensible(p) && i < |Run(p, steps).calls| && Run(p, steps).calls[i].data != []
    requires !Run(p, steps).calls[i].order && Arrived(p, Run(p, steps), i)
    ensures var m := Run(p, steps);
      Next(p, m, ReadMessage(len)).out != m.out <==> m.sys.rcv.buf.acked > 0 || m.sys.rcv.buf.maxPos > 0
  {
    RunInv(p, steps);
    var m := Run(p, steps);
    ArrivedIsFound(p, m, len, i);
    hide Run, Next, Inv;
  }

  lemma ArrivedIsFound(p: P.Params, m: Mail, len: nat, i: nat)
    requires Inv(p, m) && i < |m.calls| && m.calls[i].data != [] && !m.calls[i].order && Arrived(p, m, i)
    ensures Next(p, m, ReadMessage(len)).out != m.out <==> m.sys.rcv.buf.acked > 0 || m.sys.rcv.buf.maxPos > 0
  {
    hide P.Inv, P.RcvInv, M.Inv, P.BytesRead, Flatten, M.AfterRead, PlainBuf, Bounded, M.Framed, M.Numbered, M.Sent,
      M.Arrived, OrderFlag;
    var box := Box(p, m);
    M.SentFramed(m.calls, p.mss);
    M.NothingThere(m.sys.chunks, box, len);
    M.CallKeepsOrder(m.calls, p.mss, i);
    M.ArrivedIsFound(m.sys.chunks, box, len, |M.Sent(m.calls[..i], p.mss)|, |M.Sent(m.calls[..i + 1], p.mss)| - 1);
  }

  // ---------- what is handed over ----------

  /** Packets from the oldest one not given up on are in the send buffer. */
  ghost predicate HasRoom(p: P.Params, s: P.Sys, data: seq<byte>) {
    var queued := p.isn + |s.chunks| - s.snd.lastDataAck; data != [] && |data| <= (p.sndLimit - queued) * p.mss
  }

  /** A message is taken over if and only if it is not empty and its bytes fit the free packets of the send buffer; then
      it is queued in full packets and a rest, which all carry its number and its order flag. */
  ghost predicate MessageLaw(p: P.Params, m: Mail, data: seq<byte>, order: bool, t: Mail)
    requires p.mss > 0
  {
    if !HasRoom(p, m.sys, data) then t == m
    else
      && |t.calls| == |m.calls| + 1 && t.calls[|m.calls|] == M.Call(data, order, t.calls[|m.calls|].msgNo)
      && t == Mail(m.sys.(snd := m.sys.snd.(buf := t.sys.snd.buf), sent := m.sys.sent + data, chunks := t.sys.chunks),
                   m.calls + [t.calls[|m.calls|]], m.out)
      && m.sys.chunks <= t.sys.chunks
      && var more := t.sys.chunks[|m.sys.chunks|..];
      && Flatten(more) == data && S.Full(more, p.mss) && S.Labelled(more, t.calls[|m.calls|].msgNo, order, true)
  }

  lemma {:induction false} EveryMessage(p: P.Params, steps: seq<Step>, data: seq<byte>, order: bool)
    requires P.Sensible(p)
    ensures MessageLaw(p, Run(p, steps), data, order, Next(p, Run(p, steps), SendMessage(data, order)))
  {
    hide Run, MessageLaw, Next;
    RunInv(p, steps);
    TakesMessage(p, Run(p, steps), data, order);
  }

  lemma TakesMessage(p: P.Params, m: Mail, data: seq<byte>, order: bool)
    requires Inv(p, m)
    ensures MessageLaw(p, m, data, order, Next(p, m, SendMessage(data, order)))
  {
    FitsExactly(p, m, data);
    hide Inv, HasRoom, Fits;
    var n := m.sys.snd.buf.nextMsgNo;
    S.ChopFlatten(data, p.mss, n, order, true);
    S.ChopSizes(data, p.mss, n, order, true);
    hide S.Chop, S.NextMsgNo, Flatten, S.Full, S.Labelled;
    var t := Next(p, m, SendMessage(data, order));
    if Fits(p, m.sys.snd, data) {
      assert t.sys.chunks[|m.sys.chunks|..] == S.Chop(data, p.mss, n, order, true);
    }
  }

  lemma FitsExactly(p: P.Params, m: Mail, data: seq<byte>)
    requires Inv(p, m)
    ensures Fits(p, m.sys.snd, data) <==> HasRoom(p, m.sys, data)
  {
    Queued(p, Plain(p, m));
    hide Inv, P.RcvInv, P.Inv;
  }

  lemma Queued(p: P.Params, s: P.Sys)
    requires P.Inv(p, s)
    ensures |s.snd.buf.blocks| == p.isn + |s.chunks| - s.snd.lastDataAck
  {
  }

  /** The number after n: one more, or 1 again. */
  ghost predicate NumberAfter(n: bv32, next: bv32) {
    (n < 0x1FFF_FFFE ==> next == n + 1) && (n == 0x1FFF_FFFE ==> next == 1)
  }

  /** The messages are numbered one after the other from 1 on, and next is the number that comes then. */
  ghost predicate InTurn(calls: seq<M.Call>, next: bv32) {
    && (calls == [] ==> next == 1) && (calls != [] ==> calls[0].msgNo == 1)
    && (forall i | 0 <= i < |calls| - 1 :: NumberAfter(calls[i].msgNo, calls[i + 1].msgNo))
    && (calls != [] ==> NumberAfter(calls[|calls| - 1].msgNo, next))
  }

  lemma NextNumber(n: bv32)
    ensures NumberAfter(n, S.NextMsgNo(n))
  {
  }

  lemma {:induction false} NumbersInTurn(p: P.Params, steps: seq<Step>)
    requires P.Sensible(p)
    ensures InTurn(Run(p, steps).calls, Run(p, steps).sys.snd.buf.nextMsgNo)
  {
    if steps != [] {
      NumbersInTurn(p, steps[..|steps| - 1]);
      RunInv(p, steps[..|steps| - 1]);
      NumbersGoOn(p, Run(p, steps[..|steps| - 1]), steps[|steps| - 1]);
      hide InTurn, Next, Inv;
    }
  }

  lemma NumbersGoOn(p: P.Params, m: Mail, step: Step)
    requires Inv(p, m) && InTurn(m.calls, m.sys.snd.buf.nextMsgNo)
    ensures var t := Next(p, m, step); InTurn(t.calls, t.sys.snd.buf.nextMsgNo)
  {
    NextNumber(m.sys.snd.buf.nextMsgNo);
    hide NumberAfter, S.NextMsgNo, S.Chop, M.AfterRead, Bounded;
    if step.Within? && !step.step.AppSend? && !step.step.AppRecv? {
      InvParts(p, Plain(p, m));
      PointKept(p, m.sys.rcv, m.sys.chunks);
      WithinBox(p, m.sys, step.step, m.out);
      hide P.Next;
    }
    hide Inv;
  }
}
