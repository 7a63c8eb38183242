/** The sending half of a connection on wrapped sequence numbers. */
module Senders {
  import opened Basics
  import opened SeqNo
  import opened Packets
  import opened Intervals
  import opened LossTables
  import opened SndLossLists
  import opened Naks
  import B = SndBuffers
  import P = Protocol

  /** What the sender keeps true of itself: packets are numbered consecutively from the oldest one in the
      buffer, and what is outstanding fits the negotiated window even while lite acknowledgements shrink it. */
  ghost predicate Sound(s: P.Snd, window: int) {
    && s.lastDataAck <= s.lastAck <= s.curr + 1 && s.buf.cur == s.curr + 1 - s.lastDataAck
    && s.buf.cur <= |s.buf.blocks| && s.lost == None
    && (forall x | x in s.loss :: s.lastDataAck <= x <= s.curr)
    && s.lastAck + s.window <= s.lastDataAck + window && s.curr + 1 <= s.lastDataAck + window
  }

  lemma Bounds(s: P.Snd, window: int)
    requires Sound(s, window)
    ensures s.buf.cur == s.curr + 1 - s.lastDataAck && s.buf.cur <= window
    ensures forall x | x in s.loss :: s.lastDataAck <= x <= s.curr
  {
  }

  lemma AckBounds(s: P.Snd, window: int)
    requires Sound(s, window)
    ensures s.lastDataAck <= s.lastAck <= s.curr + 1 <= s.lastDataAck + window
  {
  }

  /** The reported numbers that are not acknowledged. */
  ghost function Unacked(runs: seq<Node>, ack: int): set<int> {
    set x | x in Covered(runs) && ack <= x
  }

  /** A loss report adds exactly the reported numbers that are not acknowledged, up to the first impossible entry,
      and it breaks the connection if and only if there is one. */
  lemma {:induction false} NakExact(s: P.Snd, runs: seq<Node>) returns (k: nat)
    ensures k <= |runs| && (forall i | 0 <= i < k :: !P.Impossible(s, runs[i]))
    ensures k < |runs| ==> P.Impossible(s, runs[k])
    ensures P.OnNak(s, runs) == s.(broken := s.broken || k < |runs|, loss := s.loss + Unacked(runs[..k], s.lastAck))
    decreases |runs|
  {
    if runs == [] {
      k := 0;
    } else if P.Impossible(s, runs[0]) {
      k := 0;
    } else {
      EntryExact(s, runs[0]);
      k := NakExact(P.OnLoss(s, runs[0]), runs[1..]);
      hide P.OnLoss;
      k := k + 1;
      CoveredFirst(runs, k);
      assert forall x :: x in Unacked(runs[..k], s.lastAck) <==>
        x in Unacked([runs[0]], s.lastAck) || x in Unacked(runs[1..][..k - 1], s.lastAck);
    }
  }

  lemma EntryExact(s: P.Snd, run: Node)
    requires !P.Impossible(s, run)
    ensures P.OnLoss(s, run) == s.(loss := s.loss + Unacked([run], s.lastAck))
  {
    assert forall x :: x in Covered([run]) <==> x in Range([run][0].lo, [run][0].hi);
    assert P.OnLoss(s, run).loss == s.loss + Unacked([run], s.lastAck);
  }

  lemma CoveredFirst(runs: seq<Node>, k: nat)
    requires 0 < k <= |runs|
    ensures Covered(runs[..k]) == Covered([runs[0]]) + Covered(runs[1..][..k - 1])
  {
    var rest := runs[1..][..k - 1];
    assert runs[..k] == [runs[0]] + rest;
    CoveredConcat([runs[0]], rest);
  }

  lemma FullAckSound(s: P.Snd, window: int, ack: int, advertised: int)
    requires Sound(s, window) && advertised <= window
    ensures Sound(P.OnFullAck(s, ack, advertised), window)
  {
  }

  lemma OnLossSound(s: P.Snd, window: int, run: Node)
    requires Sound(s, window) && !P.Impossible(s, run)
    ensures Sound(P.OnLoss(s, run), window)
    ensures var s' := P.OnLoss(s, run);
      s'.curr == s.curr && s'.lastAck == s.lastAck && s'.lastDataAck == s.lastDataAck && s'.window == s.window
  {
  }

  lemma BreakSound(s: P.Snd, window: int)
    requires Sound(s, window)
    ensures Sound(s.(broken := true), window)
  {
  }

  lemma LeastIs(s: set<int>, m: int)
    requires s != {} ==> m in s && forall x | x in s :: m <= x
    ensures s != {} ==> P.Least(s) == m
  {
  }

  lemma NoElements(s: set<int>)
    ensures |s| == 0 <==> s == {}
    ensures s == {} ==> forall t: set<int> :: s + t == t
  {
  }

  /** All before ack is acknowledged and given up on, and the newest acknowledgement grants the window; one of packets
      never sent breaks the connection. */
  ghost function AckedUpTo(s: P.Snd, ack: int, window: int): P.Snd {
    var k := if ack > s.lastDataAck then ack - s.lastDataAck else 0;
    if ack > s.curr + 1 then s.(broken := true)
    else
      s.(lastAck := if ack > s.lastAck then ack else s.lastAck, window := if ack >= s.lastAck then window else s.window,
         lastDataAck := s.lastDataAck + k, loss := (set x | x in s.loss && x >= s.lastDataAck + k),
         buf := Shortened(s.buf, k))
  }

  ghost function Shortened(b: B.SBuf, k: nat): B.SBuf {
    b.(blocks := if k <= |b.blocks| then b.blocks[k..] else [], cur := if k <= b.cur then b.cur - k else 0)
  }

  lemma FullAckIs(s: P.Snd, window: int, ack: int, advertised: int)
    requires Sound(s, window)
    ensures P.OnFullAck(s, ack, advertised) == AckedUpTo(s, ack, advertised)
  {
    assert ack <= s.lastDataAck ==> forall x | x in s.loss :: x >= s.lastDataAck;
    var loss := set x | x in s.loss && x >= s.lastDataAck;
    assert loss == s.loss;
  }

  /** Both windows have room for one more packet, and there is one never sent. */
  ghost predicate MaySend(s: P.Snd, cwnd: int) {
    var outstanding := s.curr + 1 - s.lastAck;
    outstanding < s.window && outstanding < cwnd && s.curr + 1 < s.lastDataAck + |s.buf.blocks|
  }

  ghost function SentOne(s: P.Snd): P.Snd {
    s.(curr := s.curr + 1, buf := s.buf.(cur := s.buf.cur + 1))
  }

  class Sender {
    const buffer: B.SndBuffer
    const lossList: SndLossList
    const sndBufSize: int
    var sndLastAck: int
    var sndLastDataAck: int
    var sndCurrSeqNo: int
    var flowWindowSize: int
    var broken: bool

    // the counters the three wrapped numbers stand for, and the negotiated window
    ghost var lastAck: int
    ghost var lastDataAck: int
    ghost var curr: int
    ghost const negotiated: int

    ghost predicate Valid()
      reads this, buffer, buffer.ring, lossList, lossList.data1, lossList.data2, lossList.next
    {
      && buffer.Valid() && lossList.Valid() && lossList.size == 2 * negotiated
      && sndLastAck == Wrap(lastAck) && sndLastDataAck == Wrap(lastDataAck) && sndCurrSeqNo == Wrap(curr)
      && Sound(View(), negotiated)
    }

    /** The abstract state of the sender. */
    ghost function View(): P.Snd
      requires buffer.Valid()
      reads this, buffer, buffer.ring, lossList
    {
      P.Snd(lastAck, lastDataAck, curr, flowWindowSize, buffer.View(), lossList.Contents(), None, broken)
    }

    /** A sender that starts at isn with the window negotiated with its peer. */
    constructor (isn: int, window: int, payloadSize: int, sndBufSize: int)
      requires IsSeqNo(isn) && 0 < window && 2 * window < SEQ_TH && payloadSize > 0
      ensures Valid() && negotiated == window && buffer.mss == payloadSize && this.sndBufSize == sndBufSize
      ensures View() == P.Snd(isn, isn, isn - 1, window, B.SBuf([], 0, 1), {}, None, false)
      ensures fresh(buffer) && fresh(buffer.Blocks()) && fresh(lossList)
      ensures fresh(lossList.data1) && fresh(lossList.data2) && fresh(lossList.next)
    {
      hide Placed, Disjoint, Stored, Linked, Cover, Wrap;
      WrapStep(isn);
      StartsAt(isn);
      buffer := new B.SndBuffer(32, payloadSize);
      lossList := new SndLossList(window * 2);
      this.sndBufSize := sndBufSize;
      sndLastAck, sndLastDataAck, sndCurrSeqNo := isn, isn, DecSeq(isn);
      flowWindowSize, broken := window, false;
      lastAck, lastDataAck, curr, negotiated := isn, isn, isn - 1, window;
    }

    static lemma StartsAt(isn: int)
      requires IsSeqNo(isn)
      ensures isn == Wrap(isn)
    {
    }

    /** Takes over as much of data as the send buffer has room for; returns how much. */
    method Send(data: seq<byte>) returns (n: int)
      requires Valid()
      modifies buffer, buffer.Blocks()
      ensures Valid() && (View(), n) == P.Send(old(View()), data, buffer.mss, sndBufSize)
      ensures fresh(buffer.Blocks() - old(buffer.Blocks()))
    {
      hide Placed, Disjoint, Stored, Linked, Cover, Wrap, B.Chop, SndLossList.Valid, SndLossList.Contents,
        B.SndBuffer.Circular, B.SndBuffer.Contents, B.IsMsgNo;
      if |data| <= 0 || sndBufSize <= buffer.GetCurrBufSize() {
        return 0;
      }
      Positive(sndBufSize - buffer.GetCurrBufSize(), buffer.mss);
      n := (sndBufSize - buffer.GetCurrBufSize()) * buffer.mss;
      if n > |data| {
        n := |data|;
      }
      buffer.Add(data[..n], false);
    }

    static lemma Positive(a: int, b: int)
      requires a > 0 && b > 0
      ensures a * b > 0
    {
    }

    lemma SizeBounds()
      requires Valid()
      ensures 0 < 2 * negotiated == lossList.size < SEQ_TH
    {
    }

    /** Packs the next packet to send, if there is one: lost packets come first. */
    method PackData(cwnd: int) returns (sent: bool, seqno: int, chunk: Chunk)
      requires Valid()
      modifies this, buffer, lossList, lossList.data1, lossList.data2, lossList.next
      ensures Valid() && View() == P.PackData(old(View()), cwnd).0
      ensures buffer.ring == old(buffer.ring)
      ensures var out := P.PackData(old(View()), cwnd).1;
        if sent then out.Some? && out.value.Data? && seqno == Wrap(out.value.seqno) && chunk == out.value.chunk
        else out.None?
    {
      hide Placed, Disjoint, Stored, Linked, Cover, Range, Wrap, SeqOff, SeqCmp, IncSeq, SeqLen, B.SndBuffer.Circular,
        B.SndBuffer.Contents, B.SndBuffer.Blocks, B.IsMsgNo, SndLossList.Valid, SndLossList.Contents;
      SizeBounds();
      ghost var t;
      seqno, t := lossList.GetLostSeq();
      chunk := Chunk(0, []);
      if seqno >= 0 {
        WrapCompare(lastDataAck, t);
        LeastIs(old(lossList.Contents()), t);
        var offset := SeqOff(sndLastDataAck, seqno);
        if offset < 0 {
          return false, seqno, chunk;
        }
        chunk := buffer.ReadDataAt(offset);
        sent := true;
      } else {
        sent, seqno, chunk := PackNew(cwnd);
      }
    }

    /** Packs a packet never sent before, if both windows allow it. */
    method PackNew(cwnd: int) returns (sent: bool, seqno: int, chunk: Chunk)
      requires Valid()
      modifies this, buffer
      ensures Valid() && View() == P.SendNew(old(View()), cwnd).0
      ensures buffer.ring == old(buffer.ring)
      ensures var out := P.SendNew(old(View()), cwnd).1;
        if sent then out.Some? && out.value.Data? && seqno == Wrap(out.value.seqno) && chunk == out.value.chunk
        else out.None?
      ensures sent <==> MaySend(old(View()), cwnd)
      ensures View() == if sent then SentOne(old(View())) else old(View())
      ensures sent ==> seqno == Wrap(old(curr) + 1) && chunk == old(View().buf.blocks[curr + 1 - lastDataAck])
    {
      hide Placed, Disjoint, Stored, Linked, Cover, Range, Wrap, SeqOff, SeqCmp, IncSeq, SeqLen, B.SndBuffer.Circular,
        B.SndBuffer.Contents, B.SndBuffer.Blocks, B.IsMsgNo;
      sent, seqno, chunk := false, -1, Chunk(0, []);
      var w := if flowWindowSize < cwnd then flowWindowSize else cwnd;
      WrapStep(curr);
      WrapLength(lastAck, curr + 1);
      if w >= SeqLen(sndLastAck, IncSeq(sndCurrSeqNo)) {
        sent, chunk := buffer.ReadData();
        if sent {
          sndCurrSeqNo := IncSeq(sndCurrSeqNo);
          curr := curr + 1;
          seqno := sndCurrSeqNo;
        }
      }
    }

    /** A lite acknowledgement of ack, which stands for a; an honest receiver acknowledges only what was sent. */
    method ProcessLiteAck(ack: int, ghost a: int)
      requires Valid() && ack == Wrap(a) && -SEQ_TH < a - lastAck < SEQ_TH && a <= curr + 1
      modifies this
      ensures Valid() && View() == P.OnLiteAck(old(View()), a)
      ensures lastAck == (if a > old(lastAck) then a else old(lastAck))
      ensures lastAck + flowWindowSize == old(lastAck + flowWindowSize)
      ensures View() == old(View()).(lastAck := lastAck, window := flowWindowSize)
    {
      hide Placed, Disjoint, Stored, Linked, Cover, Range, Wrap, SeqOff, SeqCmp, IncSeq, SeqLen, B.SndBuffer.Circular,
        B.SndBuffer.Contents, B.SndBuffer.Blocks, B.IsMsgNo;
      WrapCompare(a, lastAck);
      WrapCompare(lastAck, a);
      if SeqCmp(ack, sndLastAck) >= 0 {
        flowWindowSize := flowWindowSize - SeqOff(sndLastAck, ack);
        sndLastAck := ack;
        lastAck := a;
      }
    }

    /** A full acknowledgement of ack, which stands for a, with the receiver's advertised window. */
    method ProcessFullAck(ack: int, window: int, ghost a: int)
      requires Valid() && ack == Wrap(a) && window <= negotiated
      requires -SEQ_TH < a - lastAck < SEQ_TH && -SEQ_TH < a - lastDataAck < SEQ_TH && -SEQ_TH < a - (curr + 1) < SEQ_TH
      modifies this, buffer, lossList, lossList.data1, lossList.data2, lossList.next
      ensures Valid() && View() == P.OnFullAck(old(View()), a, window)
      ensures buffer.Blocks() == old(buffer.Blocks())
      ensures View() == AckedUpTo(old(View()), a, window)
    {
      hide Placed, Disjoint, Stored, Linked, Cover, Range, Wrap, SeqOff, SeqCmp, IncSeq, SeqLen, B.SndBuffer.Circular,
        B.SndBuffer.Contents, B.SndBuffer.Blocks, B.IsMsgNo, SndLossList.Valid, SndLossList.Contents;
      SizeBounds();
      FullAckSound(View(), negotiated, a, window);
      Bounds(View(), negotiated);
      FullAckIs(View(), negotiated, a, window);
      hide Sound, P.Release, AckedUpTo;
      WrapStep(curr);
      WrapCompare(a, curr + 1);
      if SeqCmp(ack, IncSeq(sndCurrSeqNo)) > 0 {
        broken := true;
        return;
      }
      TakeAck(ack, window, a);
    }

    /** An acknowledgement of packets that were sent. */
    method TakeAck(ack: int, window: int, ghost a: int)
      requires buffer.Valid() && lossList.Valid() && ack == Wrap(a)
      requires sndLastAck == Wrap(lastAck) && sndLastDataAck == Wrap(lastDataAck)
      requires -SEQ_TH < a - lastAck < SEQ_TH && -SEQ_TH < a - lastDataAck < SEQ_TH && a - lastDataAck <= buffer.cur
      requires a > lastDataAck ==> forall x | x in lossList.Contents() :: -SEQ_TH < x - (a - 1) < SEQ_TH
      modifies this`flowWindowSize, this`sndLastAck, this`lastAck, this`sndLastDataAck, this`lastDataAck
      modifies buffer, lossList, lossList.data1, lossList.data2, lossList.next
      ensures buffer.Valid() && lossList.Valid() && sndLastAck == Wrap(lastAck) && sndLastDataAck == Wrap(lastDataAck)
      ensures buffer.Blocks() == old(buffer.Blocks())
      ensures View() == P.Release(P.TakeWindow(old(View()), a, window), a)
    {
      hide Placed, Disjoint, Stored, Linked, Cover, Range, Wrap, B.SndBuffer.Circular, B.SndBuffer.Contents,
        B.SndBuffer.Blocks, B.IsMsgNo, SndLossList.Valid, SndLossList.Contents, P.Release, P.TakeWindow,
        B.SndBuffer.Valid;
      TakeWindow(ack, window, a);
      Release(ack, a);
    }

    /** The newest acknowledgement sets the flow window. */
    method TakeWindow(ack: int, window: int, ghost a: int)
      requires ack == Wrap(a) && sndLastAck == Wrap(lastAck) && -SEQ_TH < a - lastAck < SEQ_TH && buffer.Valid()
      modifies this`flowWindowSize, this`sndLastAck, this`lastAck
      ensures sndLastAck == Wrap(lastAck) && View() == P.TakeWindow(old(View()), a, window)
    {
      WrapCompare(a, lastAck);
      if SeqCmp(ack, sndLastAck) >= 0 {
        flowWindowSize := window;
        sndLastAck := ack;
        lastAck := a;
      }
    }

    /** Gives up the packets before ack, which stands for a. */
    method Release(ack: int, ghost a: int)
      requires buffer.Valid() && lossList.Valid() && ack == Wrap(a) && sndLastDataAck == Wrap(lastDataAck)
      requires -SEQ_TH < a - lastDataAck < SEQ_TH && a - lastDataAck <= buffer.cur
      requires a > lastDataAck ==> forall x | x in lossList.Contents() :: -SEQ_TH < x - (a - 1) < SEQ_TH
      modifies this`sndLastDataAck, this`lastDataAck, buffer, lossList, lossList.data1, lossList.data2, lossList.next
      ensures buffer.Valid() && lossList.Valid() && sndLastDataAck == Wrap(lastDataAck)
      ensures buffer.Blocks() == old(buffer.Blocks())
      ensures View() == P.Release(old(View()), a)
    {
      hide Placed, Disjoint, Stored, Linked, Cover, Range, Wrap, SeqOff, SeqCmp, IncSeq, SeqLen, B.SndBuffer.Circular,
        B.SndBuffer.Contents, B.SndBuffer.Blocks, B.IsMsgNo;
      WrapStep(a);
      WrapCompare(lastDataAck, a);
      var offset := SeqOff(sndLastDataAck, ack);
      if offset <= 0 {
        return;
      }
      buffer.Ack(offset);
      sndLastDataAck := ack;
      lastDataAck := a;
      lossList.Remove(DecSeq(sndLastDataAck), a - 1);
    }

    /** Nothing has been heard for too long: with an empty loss list, everything unacknowledged is resent. */
    method ExpTimeout()
      requires Valid()
      modifies lossList, lossList.data1, lossList.data2, lossList.next
      ensures Valid() && View() == P.OnTimeout(old(View()))
      ensures View() == old(View()).(loss := lossList.Contents())
      ensures old(lossList.Contents()) != {} ==> lossList.Contents() == old(lossList.Contents())
      ensures old(lossList.Contents()) == {} ==> lossList.Contents() == Range(lastAck, curr)
    {
      hide Placed, Disjoint, Stored, Linked, Cover, Range, Wrap, SeqOff, SeqCmp, IncSeq, SeqLen, B.SndBuffer.Circular,
        B.SndBuffer.Contents, B.SndBuffer.Blocks, B.IsMsgNo;
      WrapStep(curr);
      WrapCompare(curr + 1, lastAck);
      if buffer.GetCurrBufSize() > 0 {
        if IncSeq(sndCurrSeqNo) != sndLastAck && lossList.GetLossLength() == 0 {
          NoElements(lossList.Contents());
          var _ := lossList.Insert(sndLastAck, sndCurrSeqNo, lastAck, curr);
        }
      }
    }

    /** A loss report: words reports the intervals runs. A report of something never sent breaks the connection. */
    method ProcessNak(words: seq<int>, ghost runs: seq<Node>)
      requires Valid() && Conveys(words, runs)
      requires forall k | 0 <= k < |runs| :: Near(runs[k])
      modifies this`broken, lossList, lossList.data1, lossList.data2, lossList.next
      ensures Valid() && View() == P.OnNak(old(View()), runs)
    {
      hide Placed, Disjoint, Stored, Linked, Cover, Range, Wrap, B.SndBuffer.Valid, SndLossList.Valid,
        SndLossList.Contents, Sound, P.OnLoss, P.Impossible, Conveys;
      var i := 0;
      ghost var k := 0;
      assert runs[0..] == runs && words[0..] == words;
      while i < |words|
        invariant 0 <= i <= |words| && 0 <= k <= |runs| && Conveys(words[i..], runs[k..])
        invariant Valid() && P.OnNak(old(View()), runs) == P.OnNak(View(), runs[k..])
        invariant lastAck == old(lastAck) && curr == old(curr)
        decreases |words| - i
      {
        FirstEntry(words[i..], runs[k..]);
        assert runs[k..][0] == runs[k] && runs[k..][1..] == runs[k + 1..];
        var secure;
        secure, i := OneEntry(words, i, runs, k);
        k := k + 1;
        if !secure {
          BreakSound(View(), negotiated);
          broken := true;
          return;
        }
      }
      NothingConveyed(words[i..], runs[k..]);
    }

    /** The entry that starts at word i. */
    method OneEntry(words: seq<int>, i: int, ghost runs: seq<Node>, ghost k: int) returns (secure: bool, next: int)
      requires Valid() && 0 <= k < |runs| && Near(runs[k]) && 0 <= i < |words|
      requires Conveys(words[i..], runs[k..])
      modifies lossList, lossList.data1, lossList.data2, lossList.next
      ensures Valid() && secure == !P.Impossible(old(View()), runs[k])
      ensures View() == if secure then P.OnLoss(old(View()), runs[k]) else old(View())
      ensures i < next <= |words| && Conveys(words[next..], runs[k + 1..])
    {
      hide Placed, Disjoint, Stored, Linked, Cover, Range, Wrap, B.SndBuffer.Valid, SndLossList.Valid,
        SndLossList.Contents, Sound, P.OnLoss, P.Impossible, Conveys;
      assert runs[k..][0] == runs[k] && runs[k..][1..] == runs[k + 1..];
      FirstEntry(words[i..], runs[k..]);
      assert words[i..][0] == words[i];
      if words[i] >= FLAG {
        assert words[i..][1] == words[i + 1] && words[i..][2..] == words[i + 2..];
        secure := LossRange(words[i] - FLAG, words[i + 1], runs[k]);
        next := i + 2;
      } else {
        assert words[i..][1..] == words[i + 1..];
        WrapCompare(runs[k].lo, runs[k].hi);
        secure := LossSingle(words[i], runs[k]);
        next := i + 1;
      }
    }

    /** The reported interval is close enough to the sender's numbers to be compared with them. */
    ghost predicate Near(run: Node)
      reads this
    {
      && -SEQ_TH < run.hi - run.lo < SEQ_TH && -SEQ_TH < run.lo - lastAck < SEQ_TH
      && -SEQ_TH < run.hi - lastAck < SEQ_TH && -SEQ_TH < run.hi - curr < SEQ_TH
    }

    /** A report of an interval. */
    method LossRange(lo: int, hi: int, ghost run: Node) returns (secure: bool)
      requires Valid() && Near(run) && lo == Wrap(run.lo) && hi == Wrap(run.hi)
      modifies lossList, lossList.data1, lossList.data2, lossList.next
      ensures Valid() && secure == !P.Impossible(old(View()), run)
      ensures View() == if secure then P.OnLoss(old(View()), run) else old(View())
    {
      hide Placed, Disjoint, Stored, Linked, Cover, Range, Wrap, SeqOff, SeqCmp, IncSeq, SeqLen, B.SndBuffer.Circular,
        B.SndBuffer.Contents, B.SndBuffer.Blocks, B.IsMsgNo, Sound;
      if !P.Impossible(View(), run) { OnLossSound(View(), negotiated, run); }
      Bounds(View(), negotiated);
      AckBounds(View(), negotiated);
      WrapCompare(run.lo, run.hi);
      WrapCompare(run.hi, curr);
      WrapCompare(run.lo, lastAck);
      WrapCompare(run.hi, lastAck);
      if SeqCmp(lo, hi) > 0 || SeqCmp(hi, sndCurrSeqNo) > 0 {
        return false;
      }
      if SeqCmp(lo, sndLastAck) >= 0 {
        AddLoss(lo, hi, run.lo, run.hi);
      } else if SeqCmp(hi, sndLastAck) >= 0 {
        AddLoss(sndLastAck, hi, lastAck, run.hi);
      }
      secure := true;
    }

    /** Adds an interval of unacknowledged numbers to the loss list. */
    method AddLoss(lo: int, hi: int, ghost a: int, ghost b: int)
      requires Valid() && lo == Wrap(a) && hi == Wrap(b) && lastAck <= a <= b <= curr
      modifies lossList, lossList.data1, lossList.data2, lossList.next
      ensures lossList.Valid() && lossList.Contents() == old(lossList.Contents()) + Range(a, b)
    {
      hide Placed, Disjoint, Stored, Linked, Cover, Range, Wrap, SeqOff, SeqCmp, IncSeq, SeqLen, B.SndBuffer.Circular,
        B.SndBuffer.Contents, B.SndBuffer.Blocks, B.IsMsgNo;
      Bounds(View(), negotiated);
      AckBounds(View(), negotiated);
      var _ := lossList.Insert(lo, hi, a, b);
    }

    /** A report of a single number. */
    method LossSingle(lo: int, ghost run: Node) returns (secure: bool)
      requires Valid() && Near(run) && lo == Wrap(run.lo) && run.lo == run.hi
      modifies lossList, lossList.data1, lossList.data2, lossList.next
      ensures Valid() && secure == !P.Impossible(old(View()), run)
      ensures View() == if secure then P.OnLoss(old(View()), run) else old(View())
    {
      hide Placed, Disjoint, Stored, Linked, Cover, Range, Wrap, SeqOff, SeqCmp, IncSeq, SeqLen, B.SndBuffer.Circular,
        B.SndBuffer.Contents, B.SndBuffer.Blocks, B.IsMsgNo, Sound;
      if !P.Impossible(View(), run) { OnLossSound(View(), negotiated, run); }
      Bounds(View(), negotiated);
      AckBounds(View(), negotiated);
      WrapCompare(run.lo, curr);
      WrapCompare(run.lo, lastAck);
      secure := true;
      if SeqCmp(lo, sndLastAck) >= 0 {
        if SeqCmp(lo, sndCurrSeqNo) > 0 {
          return false;
        }
        AddLoss(lo, lo, run.lo, run.lo);
      }
    }
  }
}
