/** A run after which the connection never recovers: the receiver's acknowledgements all arrive but none of them is
    ever confirmed, until the next one no longer looks newer than the one confirmed. */
module Stranding {
  import opened Basics
  import opened Packets
  import opened RcvBuffers
  import opened SndBuffers
  import opened SeqNo
  import opened Protocol
  import opened Recovery

  /** One byte in a packet and the smallest receive buffer that can be configured, of 32 slots. */
  const LEAST := Params(0, 1, 32, 32, 64)

  /** k packets have been sent, received, acknowledged and read, and nothing has been confirmed. */
  ghost predicate At(s: Sys, k: int) {
    && s.snd == Snd(k, k, k - 1, s.snd.window, SBuf([], 0, s.snd.buf.nextMsgNo), {}, None, false)
    && 2 <= s.snd.window <= 32
    && s.rcv == Rcv(k, 0, k - 1, Buf(Blank(32), 0, 0, 0), {})
    && |s.chunks| == k
  }

  /** One more packet. */
  function OnePiece(s: Sys): Chunk {
    Chunk(MakeHeader(s.snd.buf.nextMsgNo, false, true, true), [0])
  }

  function Round(s: Sys, k: int): seq<Step> {
    [AppSend([0]), Transmit(2), Deliver(Data(k, OnePiece(s)), false), Acknowledge(false, true),
     Deliver(FullAck(k + 1, 30), false), AppRecv(5)]
  }

  lemma AfterOneMore(p: Params, s: Sys, steps: seq<Step>, step: Step)
    requires Sensible(p)
    ensures After(p, s, steps + [step]) == Next(p, After(p, s, steps), step)
  {
    hide Next;
    assert (steps + [step])[..|steps|] == steps;
  }

  lemma Queue(s: Sys, k: int)
    requires At(s, k)
    ensures var t := Next(LEAST, s, AppSend([0]));
      && t.snd == s.snd.(buf := SBuf([OnePiece(s)], 0, NextMsgNo(s.snd.buf.nextMsgNo)))
      && t.rcv == s.rcv && |t.chunks| == k + 1
  {
    var data: seq<byte> := [0];
    assert data[..1] == data;
    hide MakeHeader, NextMsgNo;
  }

  lemma Carry(s: Sys, k: int, c: Chunk)
    requires 2 <= s.snd.window
    requires s.snd == Snd(k, k, k - 1, s.snd.window, SBuf(s.snd.buf.blocks, 0, s.snd.buf.nextMsgNo), {}, None, false)
    requires s.snd.buf.blocks != [] && s.snd.buf.blocks[0] == c
    requires s.rcv == Rcv(k, 0, k - 1, Buf(Blank(32), 0, 0, 0), {})
    ensures var t := Next(LEAST, Next(LEAST, s, Transmit(2)), Deliver(Data(k, c), false));
      && t.snd == s.snd.(curr := k, buf := s.snd.buf.(cur := 1)) && t.chunks == s.chunks
      && t.rcv == Rcv(k, 0, k, Buf(Blank(32)[0 := Held(c, 1)], 0, 0, 0), {})
  {
    var t := Next(LEAST, s, Transmit(2));
    assert Data(k, c) in t.net;
  }

  lemma AcknowledgeIt(s: Sys, k: int, c: Chunk)
    requires s.rcv == Rcv(k, 0, k, Buf(Blank(32)[0 := Held(c, 1)], 0, 0, 0), {}) && 0 <= k && k + 1 < SEQ_TH
    ensures var t := Next(LEAST, s, Acknowledge(false, true));
      && t.snd == s.snd && t.chunks == s.chunks && FullAck(k + 1, 30) in t.net
      && t.rcv == Rcv(k + 1, 0, k, Buf(Blank(32)[0 := Held(c, 1)], 1, 0, 0), {})
  {
    NewerNear(k + 1, 0);
    hide Newer, Wrap;
    var ack := FullAck(k + 1, 30);
    assert SendAck(s.rcv, false, true).1 == Some(ack);
  }

  lemma Settle(s: Sys, k: int, c: Chunk)
    requires s.snd == Snd(k, k, k, s.snd.window, SBuf([c], 1, s.snd.buf.nextMsgNo), {}, None, false)
    requires FullAck(k + 1, 30) in s.net
    ensures var t := Next(LEAST, s, Deliver(FullAck(k + 1, 30), false));
      && t.snd == Snd(k + 1, k + 1, k, 30, SBuf([], 0, s.snd.buf.nextMsgNo), {}, None, false)
      && t.rcv == s.rcv && t.chunks == s.chunks
  {
    assert [c][1..] == [];
  }

  lemma TakeOut(s: Sys, k: int, c: Chunk)
    requires s.rcv == Rcv(k + 1, 0, k, Buf(Blank(32)[0 := Held(c, 1)], 1, 0, 0), {}) && c.bytes == [0]
    ensures var t := Next(LEAST, s, AppRecv(5));
      t.snd == s.snd && t.chunks == s.chunks && t.rcv == Rcv(k + 1, 0, k, Buf(Blank(32), 0, 0, 0), {})
  {
    var b := s.rcv.buf;
    assert b.cells[1..] + [Empty] == Blank(32);
    assert Pop(b) == Buf(Blank(32), 0, 0, 0);
    assert Read(b, 5).0 == Pop(b);
  }

  lemma RoundGoes(s: Sys, k: int)
    requires At(s, k) && 0 <= k && k + 1 < SEQ_TH
    ensures At(After(LEAST, s, Round(s, k)), k + 1)
  {
    var c, r := OnePiece(s), Round(s, k);
    assert r[..0] == [] && r[..1] == r[..0] + [r[0]] && r[..2] == r[..1] + [r[1]] && r[..3] == r[..2] + [r[2]]
        && r[..4] == r[..3] + [r[3]] && r[..5] == r[..4] + [r[4]] && r == r[..5] + [r[5]];
    forall i | 0 <= i < 6
      ensures After(LEAST, s, r[..i] + [r[i]]) == Next(LEAST, After(LEAST, s, r[..i]), r[i])
    {
      AfterOneMore(LEAST, s, r[..i], r[i]);
    }
    assert After(LEAST, s, r[..0]) == s;
    hide After, Next;
    Queue(s, k);
    Carry(After(LEAST, s, r[..1]), k, c);
    AcknowledgeIt(After(LEAST, s, r[..3]), k, c);
    Settle(After(LEAST, s, r[..4]), k, c);
    TakeOut(After(LEAST, s, r[..5]), k, c);
  }

  /** What runs reach is what their continuations reach. */
  lemma {:induction false} RunAfter(p: Params, steps: seq<Step>, more: seq<Step>)
    requires Sensible(p)
    ensures Run(p, steps + more) == After(p, Run(p, steps), more)
    decreases |more|
  {
    hide Next;
    if more == [] {
      assert steps + more == steps;
    } else {
      var n := |more| - 1;
      RunAfter(p, steps, more[..n]);
      assert (steps + more)[..|steps + more| - 1] == steps + more[..n];
    }
  }

  /** For every k up to the threshold some run carries k packets without a confirmation. */
  lemma {:induction false} ManyRounds(k: int) returns (steps: seq<Step>)
    requires 0 <= k < SEQ_TH
    ensures At(Run(LEAST, steps), k)
    decreases k
  {
    if k == 0 {
      steps := [];
    } else {
      steps := ManyRounds(k - 1);
      var s := Run(LEAST, steps);
      RoundGoes(s, k - 1);
      RunAfter(LEAST, steps, Round(s, k - 1));
      steps := steps + Round(s, k - 1);
    }
  }

  /** Forty packets are queued and the first of them arrives. */
  lemma OneOfForty(s: Sys, k: int) returns (t: Sys, more: seq<Step>)
    requires At(s, k) && 0 <= k
    ensures t == After(LEAST, s, more) && |t.chunks| == k + 40
    ensures t.snd.curr == k == t.snd.lastAck && t.snd.window <= 32
    ensures t.rcv.curr == k && t.rcv.loss == {} && t.rcv.lastAckAck == 0
  {
    hide Next, After, Chop;
    var data: seq<byte> := seq(40, _ => 0);
    QueueForty(s, k, data);
    var a := Next(LEAST, s, AppSend(data));
    var c := a.snd.buf.blocks[0];
    Carry(a, k, c);
    t := Next(LEAST, Next(LEAST, a, Transmit(2)), Deliver(Data(k, c), false));
    more := ThreeSteps(s, AppSend(data), Transmit(2), Deliver(Data(k, c), false));
  }

  lemma ThreeSteps(s: Sys, a: Step, b: Step, c: Step) returns (more: seq<Step>)
    ensures After(LEAST, s, more) == Next(LEAST, Next(LEAST, Next(LEAST, s, a), b), c)
  {
    hide Next;
    assert After(LEAST, s, []) == s;
    AfterOneMore(LEAST, s, [], a);
    AfterOneMore(LEAST, s, [] + [a], b);
    AfterOneMore(LEAST, s, [] + [a] + [b], c);
    more := [] + [a] + [b] + [c];
  }

  lemma QueueForty(s: Sys, k: int, data: seq<byte>)
    requires At(s, k) && |data| == 40
    ensures var t := Next(LEAST, s, AppSend(data)); var chunks := Chop(data, 1, s.snd.buf.nextMsgNo, false, true);
      && |chunks| == 40 && |t.chunks| == k + 40 && t.rcv == s.rcv
      && t.snd == s.snd.(buf := SBuf(chunks, 0, NextMsgNo(s.snd.buf.nextMsgNo)))
  {
    ChopCount(data, 1, s.snd.buf.nextMsgNo, false, true, 40);
    assert data[..40] == data;
    hide Chop, NextMsgNo;
  }

  /** The run: when the acknowledgements have got the threshold ahead of the one confirmed, and with the packets under
      way lost, no continuation delivers all that was sent. */
  lemma SomeRunsStrand() returns (steps: seq<Step>)
    ensures var lost := Run(LEAST, steps).(net := {});
      && Protocol.FirstMissing(lost.rcv) - lost.rcv.lastAckAck == SEQ_TH
      && forall more :: !(lost.sent <= After(LEAST, lost, more).received)
  {
    steps := ManyRounds(SEQ_TH - 1);
    var t, more := OneOfForty(Run(LEAST, steps), SEQ_TH - 1);
    RunAfter(LEAST, steps, more);
    hide Run, After, Hopeful;
    steps := steps + more;
    RecoversExactly(LEAST, steps);
    var lost := Run(LEAST, steps).(net := {});
    TooFar(lost);
  }

  lemma TooFar(s: Sys)
    requires s.rcv.curr == SEQ_TH - 1 && s.rcv.loss == {} && s.rcv.lastAckAck == 0
    requires s.snd.curr == SEQ_TH - 1 == s.snd.lastAck && s.snd.window <= 32 && |s.chunks| == SEQ_TH + 39
    ensures !Hopeful(LEAST, s)
  {
    forall x | SEQ_TH <= x <= SEQ_TH + 31
      ensures !Newer(x, 0)
    {
      NewerExact(x, 0);
    }
    hide Newer;
  }
}
