/** The receiving half of a connection on wrapped sequence numbers. */
module Receivers {
  import opened Basics
  import opened SeqNo
  import opened Packets
  import opened Intervals
  import opened RcvBuffers
  import opened RcvLossLists
  import opened LossTables
  import opened Naks
  import P = Protocol

  /** What the receiver knows about itself, whatever the packets contain. */
  ghost predicate Sound(r: P.Rcv, size: int) {
    && |r.buf.cells| == size && Readable(r.buf)
    && r.lastAck - 1 <= r.curr && r.curr - P.ReadPoint(r) <= size - 2 && r.lastAckAck <= r.lastAck
    && (forall i | 0 <= i < |r.buf.cells| :: r.buf.cells[i].Held? ==>
          P.ReadPoint(r) + i <= r.curr && r.buf.cells[i].flag == 1)
    && (forall x :: x in r.loss <==> r.lastAck <= x <= r.curr && !P.Filled(r, x))
  }

  /** A history that explains the receiver's state: packets as buffered, with one more packet t. */
  ghost function History(r: P.Rcv, isn: int, n: nat, t: int, chunk: Chunk): (h: seq<Chunk>)
    ensures |h| == n
  {
    seq(n, i => if P.Filled(r, isn + i) then r.buf.cells[isn + i - P.ReadPoint(r)].chunk
                else if isn + i == t then chunk else Chunk(0, []))
  }

  /** Every sound state is a state of the protocol, so the protocol's invariants apply to it. */
  lemma SoundIsProtocolState(r: P.Rcv, size: int, t: int, chunk: Chunk) returns (p: P.Params, chunks: seq<Chunk>)
    requires Sound(r, size) && r.lastAck <= t && size > 0
    ensures P.RcvInv(p, r, chunks) && p.rcvSize == size && p.isn <= t < p.isn + |chunks|
    ensures !P.Filled(r, t) ==> chunks[t - p.isn] == chunk
  {
    var isn := if r.lastAckAck < P.ReadPoint(r) then r.lastAckAck else P.ReadPoint(r);
    var last := if t > r.curr then t else r.curr;
    p := P.Params(isn, 1, size + 2, size, 1);
    chunks := History(r, isn, last + 1 - isn, t, chunk);
    forall i | 0 <= i < |r.buf.cells| && r.buf.cells[i].Held?
      ensures r.buf.cells[i] == Held(chunks[P.ReadPoint(r) + i - isn], 1)
    {
      assert P.Filled(r, P.ReadPoint(r) + i);
    }
  }

  lemma ProtocolStateIsSound(p: P.Params, r: P.Rcv, chunks: seq<Chunk>)
    requires P.RcvInv(p, r, chunks)
    ensures Sound(r, p.rcvSize)
  {
  }

  lemma StartSound(isn: int, size: int)
    requires size >= 2
    ensures Sound(P.Rcv(isn, isn, isn - 1, Buf(Blank(size), 0, 0, 0), {}), size)
    ensures IsSeqNo(isn) ==> isn == Wrap(isn)
  {
  }

  lemma OnDataSound(r: P.Rcv, size: int, t: int, chunk: Chunk)
    requires Sound(r, size) && size > 0
    ensures Sound(P.OnData(r, t, chunk).0, size)
  {
    hide Sound, P.RcvInv, AddData, Range, P.Filled;
    if 0 <= t - r.lastAck < AvailSize(r.buf) {
      var p, chunks := SoundIsProtocolState(r, size, t, chunk);
      if P.Filled(r, t) {
        P.DuplicateInv(p, r, chunks, t - r.lastAck, chunk);
      } else {
        P.OnDataInv(p, r, chunks, t, chunk);
      }
      ProtocolStateIsSound(p, P.OnData(r, t, chunk).0, chunks);
    }
  }

  lemma AddsUnlessFilled(r: P.Rcv, size: int, t: int, chunk: Chunk)
    requires Sound(r, size)
    ensures 0 <= t - r.lastAck < AvailSize(r.buf) ==>
      AddData(r.buf, chunk, t - r.lastAck).1 == !P.Filled(r, t)
  {
  }

  lemma SendAckSound(r: P.Rcv, size: int, lite: bool, due: bool)
    requires Sound(r, size) && size > 0
    ensures Sound(P.SendAck(r, lite, due).0, size)
    ensures r.lastAck <= P.FirstMissing(r) <= r.curr + 1
  {
    var p, chunks := SoundIsProtocolState(r, size, r.lastAck, Chunk(0, []));
    P.BelowFirstMissing(p, r, chunks);
    P.AdvanceInv(p, r, chunks);
    var ack := P.FirstMissing(r);
    ProtocolStateIsSound(p, r.(lastAck := ack, buf := AckData(r.buf, ack - r.lastAck)), chunks);
  }

  lemma RecvSound(r: P.Rcv, size: int, len: nat)
    requires Sound(r, size) && size > 0
    ensures Sound(P.Recv(r, len).0, size)
  {
    var p, chunks := SoundIsProtocolState(r, size, r.lastAck, Chunk(0, []));
    P.RecvInv(p, r, chunks, len);
    ProtocolStateIsSound(p, P.Recv(r, len).0, chunks);
  }

  /** The bounds that the data structures rely on. */
  lemma SoundBounds(r: P.Rcv, size: int)
    requires Sound(r, size)
    ensures r.buf.acked < size && |r.buf.cells| == size
    ensures r.lastAck - 1 <= r.curr && r.curr + 1 - r.lastAck <= AvailSize(r.buf) && AvailSize(r.buf) < size
    ensures forall x | x in r.loss :: r.lastAck <= x <= r.curr
  {
  }

  lemma SoundReadable(r: P.Rcv, size: int)
    requires Sound(r, size)
    ensures Readable(r.buf)
  {
  }

  lemma AckAckSound(r: P.Rcv, size: int, ack: int)
    requires Sound(r, size) && ack <= r.lastAck
    ensures Sound(P.OnAckAck(r, ack), size)
  {
    assert forall x :: P.Filled(P.OnAckAck(r, ack), x) <==> P.Filled(r, x);
  }

  lemma EmptyMeansNone(s: set<int>)
    requires |s| == 0
    ensures s == {}
  {
  }

  lemma LeastIs(s: set<int>, m: int)
    requires m in s && forall x | x in s :: m <= x
    ensures s != {} && P.Least(s) == m
  {
  }

  /** What a packet carries on the wire. */
  datatype Wire =
    | WireData(seqno: int, chunk: Chunk)
    | WireAck(ack: int, window: int)
    | WireLiteAck(ack: int)
    | WireNak(words: seq<int>)
    | WireAckAck(ack: int)

  /** A packet as it is sent. */
  function Encode(pkt: P.Packet): Wire {
    match pkt
    case Data(t, chunk) => WireData(Wrap(t), chunk)
    case FullAck(ack, window) => WireAck(Wrap(ack), window)
    case LiteAck(ack) => WireLiteAck(Wrap(ack))
    case Nak(runs) => WireNak(EncodeRuns(runs))
    case AckAck(ack) => WireAckAck(Wrap(ack))
  }

  function EncodeOption(pkt: Option<P.Packet>): Option<Wire> {
    if pkt.None? then None else Some(Encode(pkt.value))
  }

  /** A report of the numbers from lo to hi: of one alone, or of an interval, whose first word has its top bit set. */
  function GapWords(lo: int, hi: int): seq<int> {
    if lo == hi then [Wrap(hi)] else [0x8000_0000 + Wrap(lo), Wrap(hi)]
  }

  /** Slot t is empty, and not the one that always stays empty. */
  ghost predicate HasRoomFor(r: P.Rcv, t: int) {
    var i := r.buf.acked + (t - r.lastAck);
    r.buf.acked <= i < |r.buf.cells| - 1 && r.buf.cells[i].Empty?
  }

  /** What is lost once packet t has arrived. */
  ghost function LostAfter(r: P.Rcv, t: int): set<int> {
    (set x | x in r.loss && x != t) + Range(r.curr + 1, t - 1)
  }

  lemma ArrivalIs(r: P.Rcv, size: int, t: int, chunk: Chunk)
    requires Sound(r, size)
    ensures P.Accepts(r, t) == HasRoomFor(r, t)
    ensures P.OnData(r, t, chunk).0.loss == if HasRoomFor(r, t) then LostAfter(r, t) else r.loss
  {
    SoundBounds(r, size);
    if !HasRoomFor(r, t) { return; }
    assert P.OnData(r, t, chunk).0.loss == LostAfter(r, t);
  }

  class Receiver {
    const lossList: RcvLossList
    const buffer: RcvBuffer
    var rcvLastAck: int
    var rcvLastAckAck: int
    var rcvCurrSeqNo: int

    // the counters the three wrapped numbers stand for
    ghost var lastAck: int
    ghost var lastAckAck: int
    ghost var curr: int

    ghost predicate Valid()
      reads this, lossList, lossList.data1, lossList.data2, lossList.next, lossList.prior, buffer, buffer.unit
    {
      && lossList.Valid() && buffer.Valid() && buffer.size <= lossList.size
      && rcvLastAck == Wrap(lastAck) && rcvLastAckAck == Wrap(lastAckAck) && rcvCurrSeqNo == Wrap(curr)
      && Sound(View(), buffer.size)
    }

    /** The abstract state of the receiver. */
    ghost function View(): P.Rcv
      requires buffer.Valid()
      reads this, lossList, buffer, buffer.unit
    {
      P.Rcv(lastAck, lastAckAck, curr, buffer.View(), lossList.Contents())
    }

    /** A receiver that expects the peer's initial sequence number isn first. */
    constructor (isn: int, flightFlagSize: int, rcvBufSize: int)
      requires IsSeqNo(isn) && 2 <= rcvBufSize <= flightFlagSize < SEQ_TH
      ensures Valid() && View() == P.Rcv(isn, isn, isn - 1, Buf(Blank(rcvBufSize), 0, 0, 0), {})
      ensures fresh(buffer) && fresh(buffer.unit) && fresh(lossList) && fresh(lossList.data1) && fresh(lossList.data2)
      ensures fresh(lossList.next) && fresh(lossList.prior)
    {
      hide Placed, Disjoint, Stored, Linked, Mutual, Cover, Range, Wrap, Rotate, Readable, Sound, SeqOff, SeqCmp,
        IncSeq;
      WrapStep(isn);
      StartSound(isn, rcvBufSize);
      lossList := new RcvLossList(flightFlagSize);
      buffer := new RcvBuffer(rcvBufSize);
      rcvLastAck, rcvLastAckAck, rcvCurrSeqNo := isn, isn, DecSeq(isn);
      lastAck, lastAckAck, curr := isn, isn, isn - 1;
      new;
      assert buffer.View().cells == Blank(rcvBufSize);
    }

    lemma SizeBounds()
      requires Valid()
      ensures 0 < buffer.size <= lossList.size < SEQ_TH
    {
    }

    /** A data packet with sequence number seqno arrives; t is the counter that number stands for. Returns -1
        if the packet is of no use, and the loss report if it reveals a gap. */
    method ProcessData(seqno: int, chunk: Chunk, ghost t: int) returns (r: int, nak: Option<Wire>)
      requires Valid() && seqno == Wrap(t) && -SEQ_TH < t - lastAck < SEQ_TH
      modifies this, lossList, lossList.data1, lossList.data2, lossList.next, lossList.prior, buffer, buffer.unit
      ensures Valid() && View() == P.OnData(old(View()), t, chunk).0
      ensures r == (if P.Accepts(old(View()), t) then 0 else -1)
      ensures nak == EncodeOption(P.OnData(old(View()), t, chunk).1)
      ensures var welcome := HasRoomFor(old(View()), t);
        && r == (if welcome then 0 else -1) && lastAck == old(lastAck) && lastAckAck == old(lastAckAck)
        && nak == (if welcome && t > old(curr) + 1 then Some(WireNak(GapWords(old(curr) + 1, t - 1))) else None)
        && curr == (if welcome && t > old(curr) then t else old(curr))
        && lossList.Contents() == if welcome then LostAfter(old(View()), t) else old(lossList.Contents())
    {
      hide Placed, Disjoint, Stored, Linked, Mutual, Cover, Range, Wrap, Rotate, Readable, Sound, SeqOff, SeqCmp,
        IncSeq, AddData, EncodeRuns, P.Filled, RcvBuffer.Valid, RcvLossList.Valid, RcvLossList.Contents, HasRoomFor,
        LostAfter;
      SizeBounds();
      OnDataSound(View(), buffer.size, t, chunk);
      AddsUnlessFilled(View(), buffer.size, t, chunk);
      ArrivalIs(View(), buffer.size, t, chunk);
      SoundBounds(View(), buffer.size);
      nak := None;
      WrapCompare(lastAck, t);
      var offset := SeqOff(rcvLastAck, seqno);
      if offset < 0 || offset >= buffer.GetAvailBufSize() {
        return -1, None;
      }
      var added := buffer.Add(chunk, offset);
      if added < 0 {
        return -1, None;
      }
      nak := NoteArrival(seqno, t);
      EncodeSingle(Node(old(curr) + 1, t - 1));
      r := 0;
    }

    /** Loss detection for a packet just stored: the numbers skipped over are lost, its own no longer is. */
    method NoteArrival(seqno: int, ghost t: int) returns (nak: Option<Wire>)
      requires lossList.Valid() && rcvCurrSeqNo == Wrap(curr) && seqno == Wrap(t)
      requires -SEQ_TH < t - (curr + 1) < SEQ_TH && -SEQ_TH < t - curr < SEQ_TH
      requires forall x | x in lossList.Contents() ::
        x <= curr && -lossList.size < t - x < lossList.size && t - curr < lossList.size
      requires t - curr < lossList.size
      modifies this`rcvCurrSeqNo, this`curr, lossList, lossList.data1, lossList.data2, lossList.next, lossList.prior
      ensures lossList.Valid() && rcvCurrSeqNo == Wrap(curr) && curr == (if t > old(curr) then t else old(curr))
      ensures var was := old(lossList.Contents());
        lossList.Contents() == if t > old(curr) + 1 then was + Range(old(curr) + 1, t - 1)
                               else if t > old(curr) then was else was - {t}
      ensures nak == if t > old(curr) + 1 then Some(WireNak(EncodeRuns([Node(old(curr) + 1, t - 1)]))) else None
    {
      hide Placed, Disjoint, Stored, Linked, Mutual, Cover, Range, Wrap, Rotate, Readable, Sound, SeqOff, SeqCmp,
        IncSeq;
      WrapStep(curr);
      WrapCompare(t, curr + 1);
      WrapCompare(t, curr);
      nak := None;
      if SeqCmp(seqno, IncSeq(rcvCurrSeqNo)) > 0 {
        WrapStep(t);
        WrapCompare(curr + 1, t - 1);
        var lo, hi := IncSeq(rcvCurrSeqNo), DecSeq(seqno);
        lossList.Insert(lo, hi, curr + 1, t - 1);
        nak := Some(WireNak(if lo == hi then [hi] else [lo + FLAG, hi]));
        EncodeSingle(Node(curr + 1, t - 1));
      }
      if SeqCmp(seqno, rcvCurrSeqNo) > 0 {
        rcvCurrSeqNo := seqno;
        curr := t;
      } else {
        var _ := lossList.Remove(seqno, t);
      }
    }

    /** Acknowledges what has arrived without a gap. A lite acknowledgement carries only the number; a full one
        that says nothing new goes out only when it is due, and none whose number does not look newer than the
        one confirmed. */
    method SendAck(lite: bool, due: bool) returns (out: Option<Wire>)
      requires Valid()
      modifies this, buffer
      ensures Valid() && View() == P.SendAck(old(View()), lite, due).0
      ensures out == EncodeOption(P.SendAck(old(View()), lite, due).1)
    {
      SendAckSound(View(), buffer.size, lite, due);
      SoundBounds(View(), buffer.size);
      hide Placed, Disjoint, Stored, Linked, Mutual, Cover, Range, Wrap, Rotate, Readable, Sound, SeqOff, SeqCmp,
        IncSeq;
      hide P.FirstMissing, EncodeRuns, P.SendFullAck;
      WrapStep(curr);
      var ack := FirstMissing();
      ghost var t := P.FirstMissing(View());
      if ack == rcvLastAckAck {
        return None;
      }
      if lite {
        return Some(WireLiteAck(ack));
      }
      out := SendFullAck(ack, due, t);
    }

    /** Sends a full acknowledgement of ack, which stands for t. */
    method SendFullAck(ack: int, due: bool, ghost t: int) returns (out: Option<Wire>)
      requires Valid() && ack == Wrap(t) && lastAck <= t <= curr + 1
      requires Sound(P.SendFullAck(View(), t, due).0, buffer.size)
      modifies this, buffer
      ensures Valid() && View() == P.SendFullAck(old(View()), t, due).0
      ensures out == EncodeOption(P.SendFullAck(old(View()), t, due).1)
    {
      SizeBounds();
      SoundBounds(View(), buffer.size);
      hide Placed, Disjoint, Stored, Linked, Mutual, Cover, Range, Wrap, Rotate, Readable, Sound, SeqOff, SeqCmp,
        IncSeq, RcvBuffer.Valid, RcvLossList.Valid, RcvLossList.Contents, AckData, Newer;
      WrapCompare(t, lastAck);
      if SeqCmp(ack, rcvLastAck) > 0 {
        Advance(ack, t);
      } else if ack == rcvLastAck {
        if !due {
          return None;
        }
      } else {
        return None;
      }
      out := Advertise();
    }

    /** The acknowledgement itself, unless the sender is known to have it. */
    method Advertise() returns (out: Option<Wire>)
      requires buffer.Valid() && rcvLastAck == Wrap(lastAck) && rcvLastAckAck == Wrap(lastAckAck)
      ensures var avail := AvailSize(buffer.View());
        out == if Newer(lastAck, lastAckAck) then Some(WireAck(rcvLastAck, if avail < 2 then 2 else avail)) else None
    {
      if SeqCmp(rcvLastAck, rcvLastAckAck) > 0 {
        var window := buffer.GetAvailBufSize();
        if window < 2 {
          window := 2;
        }
        return Some(WireAck(rcvLastAck, window));
      }
      out := None;
    }

    /** Moves the acknowledged point up to ack, which stands for t. */
    method Advance(ack: int, ghost t: int)
      requires buffer.Valid() && rcvLastAck == Wrap(lastAck) && ack == Wrap(t)
      requires 0 < t - lastAck < SEQ_TH && buffer.View().acked + (t - lastAck) < buffer.size
      modifies this`rcvLastAck, this`lastAck, buffer
      ensures buffer.Valid() && rcvLastAck == Wrap(lastAck)
      ensures View() == old(View()).(lastAck := t, buf := AckData(old(buffer.View()), t - old(lastAck)))
    {
      hide Placed, Disjoint, Stored, Linked, Mutual, Cover, Range, Wrap, Rotate, Readable, Sound, SeqOff, SeqCmp,
        IncSeq;
      WrapCompare(lastAck, t);
      var acksize := SeqOff(rcvLastAck, ack);
      rcvLastAck := ack;
      lastAck := t;
      buffer.Ack(acksize);
    }

    /** The first sequence number not received yet. */
    method FirstMissing() returns (ack: int)
      requires Valid()
      ensures ack == Wrap(P.FirstMissing(View()))
    {
      hide Placed, Disjoint, Stored, Linked, Mutual, Cover, Range, Wrap, Rotate, Readable, Sound, SeqOff, SeqCmp,
        IncSeq;
      WrapStep(curr);
      if lossList.GetLossLength() == 0 {
        EmptyMeansNone(lossList.Contents());
        ack := IncSeq(rcvCurrSeqNo);
      } else {
        ghost var least;
        ack, least := lossList.GetFirstLostSeq();
        LeastIs(lossList.Contents(), least);
      }
    }

    /** The sender has confirmed the acknowledgement of seqno, which stands for ack. */
    method ProcessAckAck(seqno: int, ghost ack: int)
      requires Valid() && seqno == Wrap(ack) && ack <= lastAck
      modifies this
      ensures Valid() && View() == P.OnAckAck(old(View()), ack)
    {
      AckAckSound(View(), buffer.size, ack);
      hide Placed, Disjoint, Stored, Linked, Mutual, Cover, Range, Wrap, Rotate, Readable, Sound, SeqOff, SeqCmp,
        IncSeq;
      if SeqCmp(seqno, rcvLastAckAck) > 0 {
        rcvLastAckAck := seqno;
        lastAckAck := ack;
      }
    }

    /** Hands up to len bytes to the application. */
    method Recv(len: int) returns (data: seq<byte>)
      requires Valid() && 0 <= len
      modifies buffer, buffer.unit
      ensures Valid() && View() == P.Recv(old(View()), len).0 && data == P.Recv(old(View()), len).1
    {
      RecvSound(View(), buffer.size, len);
      SoundReadable(View(), buffer.size);
      hide Placed, Disjoint, Stored, Linked, Mutual, Cover, Range, Wrap, Rotate, Readable, Sound, SeqOff, SeqCmp,
        IncSeq;
      hide Read;
      data := buffer.ReadBuffer(len);
    }
  }
}
