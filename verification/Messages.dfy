/** Message mode from end to end: messages are cut into packets, packets reach the receive buffer in any order,
    more than once or not at all, and messages are read from the buffer. */
module Messages {
  import opened Packets
  import opened RcvBuffers
  import S = SndBuffers

  /** One message handed to the send buffer, with the number it got there. */
  datatype Call = Call(data: seq<byte>, order: bool, msgNo: bv32)

  /** All packets of all messages, in sequence number order. */
  ghost function Sent(calls: seq<Call>, mss: int): seq<Chunk>
    requires mss > 0
  {
    if calls == [] then []
    else
      var c := calls[|calls| - 1];
      Sent(calls[..|calls| - 1], mss) + S.Chop(c.data, mss, c.msgNo, c.order, true)
  }

  // ---------- messages within the packet sequence ----------

  ghost predicate First(s: seq<Chunk>, j: int)
    requires 0 <= j < |s|
  {
    IsFirst(s[j].header)
  }

  ghost predicate Final(s: seq<Chunk>, j: int)
    requires 0 <= j < |s|
  {
    IsLast(s[j].header)
  }

  ghost predicate NoFirst(s: seq<Chunk>, lo: int, hi: int) {
    forall j | lo <= j < hi && 0 <= j < |s| :: !First(s, j)
  }

  ghost predicate NoFinal(s: seq<Chunk>, lo: int, hi: int) {
    forall j | lo <= j < hi && 0 <= j < |s| :: !Final(s, j)
  }

  /** One message ends exactly where the next one begins, and all packets of a message carry the same order flag. */
  ghost predicate Framed(s: seq<Chunk>) {
    && (s != [] ==> First(s, 0) && Final(s, |s| - 1))
    && (forall j | 0 <= j < |s| - 1 :: Final(s, j) <==> First(s, j + 1))
    && (forall j | 0 <= j < |s| - 1 :: !Final(s, j) ==> OrderFlag(s[j].header) == OrderFlag(s[j + 1].header))
  }

  /** Packets h to t are one whole message. */
  ghost predicate IsMessage(s: seq<Chunk>, h: int, t: int) {
    0 <= h <= t < |s| && First(s, h) && Final(s, t) && NoFirst(s, h + 1, t + 1)
  }

  lemma SameMessage(s: seq<Chunk>, h: int, t: int, h': int, t': int, j: int)
    requires Framed(s) && IsMessage(s, h, t) && IsMessage(s, h', t') && h <= j <= t && h' <= j <= t'
    ensures h == h' && t == t'
  {
    hide IsFirst, IsLast, OrderFlag;
  }

  // ---------- the run ----------

  /** A message read: packets h to t, cut to len bytes. */
  datatype Reading = Reading(h: nat, t: nat, len: nat, bytes: seq<byte>)

  /** base is the number of the packet that belongs into the slot at the read point. */
  datatype State = State(base: nat, buf: Buf, out: seq<Reading>)

  datatype Step =
    | Arrive(j: nat)
    | Acknowledge(n: nat)
    | Read(len: nat)

  ghost predicate Can(s: seq<Chunk>, st: State, step: Step) {
    match step
    case Arrive(j) => j < |s| && st.base + st.buf.acked <= j && j - st.base - st.buf.acked < AvailSize(st.buf)
    case Acknowledge(n) =>
      && st.buf.acked + n <= |st.buf.cells|
      && forall i | st.buf.acked <= i < st.buf.acked + n :: st.buf.cells[i].Held?
    case Read(len) => Bounded(st.buf)
  }

  ghost function Next(s: seq<Chunk>, st: State, step: Step): State {
    if !Can(s, st, step) then st
    else
      match step
      case Arrive(j) => st.(buf := AddData(st.buf, s[j], j - st.base - st.buf.acked).0)
      case Acknowledge(n) => st.(buf := AckData(st.buf, n))
      case Read(len) => AfterRead(st, len)
  }

  ghost function AfterRead(st: State, len: nat): State
    requires Bounded(st.buf)
  {
    var (b, found) := ScanMsg(st.buf);
    var base := st.base + (st.buf.acked - b.acked);
    match found
    case NotFound => State(base, b, st.out)
    case Found(p, q) =>
      var b' := TakeMsg(b, p, q);
      State(base + (b.acked - b'.acked), b',
            st.out + [Reading(base + p, base + q, len, ReadMsg(st.buf, len).1)])
  }

  ghost function Init(size: nat): State
    requires size > 0
  {
    State(0, Buf(Blank(size), 0, 0, 0), [])
  }

  ghost function Run(s: seq<Chunk>, size: nat, steps: seq<Step>): State
    requires size > 0
  {
    if steps == [] then Init(size) else Next(s, Run(s, size, steps[..|steps| - 1]), steps[|steps| - 1])
  }

  // ---------- the invariant ----------

  ghost predicate InRead(out: seq<Reading>, j: int) {
    exists a :: 0 <= a < |out| && out[a].h <= j <= out[a].t
  }

  /** Slots hold the packets of their numbers, and are marked as read exactly when their message has been read. */
  ghost predicate Slots(s: seq<Chunk>, st: State) {
    && Bounded(st.buf)
    && (forall i | 0 <= i < st.buf.acked :: st.buf.cells[i].Held?)
    && (forall i | 0 <= i < |st.buf.cells| && st.buf.cells[i].Held? ::
          && i <= st.buf.acked + st.buf.maxPos
          && st.base + i < |s| && st.buf.cells[i].chunk == s[st.base + i]
          && st.buf.cells[i].flag == if InRead(st.out, st.base + i) then 2 else 1)
  }

  /** Everything before the read point has been read; what has been read beyond it is still in the buffer. */
  ghost predicate Progress(s: seq<Chunk>, st: State) {
    && (forall j | 0 <= j < st.base :: InRead(st.out, j))
    && (forall j | st.base <= j :: InRead(st.out, j) ==>
          j < st.base + |st.buf.cells| && st.buf.cells[j - st.base].Held?)
  }

  /** What has been read are whole messages, each once, and those that keep their order in that order. */
  ghost predicate Readings(s: seq<Chunk>, base: nat, out: seq<Reading>) {
    && (forall a | 0 <= a < |out| ::
          var r := out[a];
          && IsMessage(s, r.h, r.t) && r.bytes == Cut(Flatten(s[r.h..r.t + 1]), r.len)
          && (OrderFlag(s[r.t].header) ==> r.t < base))
    && (forall a, b | 0 <= a < b < |out| :: out[a].h != out[b].h)
    && (forall a, b | 0 <= a < b < |out| && OrderFlag(s[out[a].t].header) && OrderFlag(s[out[b].t].header) ::
          out[a].h < out[b].h)
  }

  ghost predicate Inv(s: seq<Chunk>, st: State) {
    Slots(s, st) && Progress(s, st) && Readings(s, st.base, st.out)
  }

  lemma ArriveKeeps(s: seq<Chunk>, st: State, j: nat)
    requires Inv(s, st)
    ensures Inv(s, Next(s, st, Arrive(j)))
  {
    hide IsFirst, IsLast, OrderFlag, IsMessage, Flatten, Cut;
    hide Readings, InRead;
  }

  lemma AcknowledgeKeeps(s: seq<Chunk>, st: State, n: nat)
    requires Inv(s, st)
    ensures Inv(s, Next(s, st, Acknowledge(n)))
  {
    hide IsFirst, IsLast, OrderFlag, IsMessage, Flatten, Cut;
    hide Readings, InRead;
    if n > 0 && Can(s, st, Acknowledge(n)) {
      assert st.buf.cells[st.buf.acked + n - 1].Held?;
    }
  }

  // ---------- skipping ----------

  /** An unread packet at the read point begins its message. */
  lemma StartsMessage(s: seq<Chunk>, st: State)
    requires Framed(s) && Inv(s, st) && st.base < |s| && !InRead(st.out, st.base)
    ensures First(s, st.base)
  {
    hide IsFirst, IsLast, OrderFlag, Flatten, Cut, Slots;
    if st.base > 0 {
      assert InRead(st.out, st.base - 1);
      var a :| 0 <= a < |st.out| && st.out[a].h <= st.base - 1 <= st.out[a].t;
      assert IsMessage(s, st.out[a].h, st.out[a].t);
      assert Final(s, st.base - 1) <==> First(s, st.base);
    }
  }

  lemma UnreadTogether(s: seq<Chunk>, st: State, i: nat)
    requires Framed(s) && Inv(s, st) && st.base + i < |s| && !InRead(st.out, st.base)
    requires NoFinal(s, st.base, st.base + i)
    ensures !InRead(st.out, st.base + i)
  {
    hide IsFirst, IsLast, OrderFlag, Flatten, Cut, Slots;
    NoBeginning(s, st.base, st.base + i);
  }

  lemma NoBeginning(s: seq<Chunk>, lo: nat, hi: nat)
    requires Framed(s) && NoFinal(s, lo, hi)
    ensures NoFirst(s, lo + 1, hi + 1)
  {
    hide IsFirst, IsLast, OrderFlag;
    forall j | lo < j <= hi && j < |s|
      ensures !First(s, j)
    {
      assert !Final(s, j - 1);
    }
  }

  lemma {:induction false} AheadHolds(s: seq<Chunk>, st: State, i: nat)
    requires Framed(s) && Inv(s, st) && i <= st.buf.acked && st.buf.acked > 0 && !InRead(st.out, st.base)
    requires NoFinal(s, st.base, st.base + i)
    ensures WholeAhead(st.buf, i)
    decreases st.buf.acked - i
  {
    hide IsFirst, IsLast, OrderFlag, Flatten, Cut, Readings, Progress, Framed;
    if i < st.buf.acked {
      assert st.buf.cells[i].Held?;
      UnreadTogether(s, st, i);
      if !Final(s, st.base + i) {
        AheadHolds(s, st, i + 1);
      }
    }
  }

  /** What is given up has been read. */
  lemma BadIsRead(s: seq<Chunk>, st: State)
    requires Framed(s) && Inv(s, st) && st.buf.acked > 0 && !GoodStart(st.buf)
    ensures InRead(st.out, st.base)
  {
    hide IsFirst, IsLast, OrderFlag, Flatten, Cut, Readings, Progress, Framed, WholeAhead;
    if !InRead(st.out, st.base) {
      assert st.buf.cells[0].Held?;
      StartsMessage(s, st);
      AheadHolds(s, st, 0);
    }
  }

  lemma DropKeeps(s: seq<Chunk>, st: State)
    requires Inv(s, st) && st.buf.acked > 0 && InRead(st.out, st.base)
    ensures Inv(s, State(st.base + 1, Drop(st.buf), st.out))
  {
    hide IsFirst, IsLast, OrderFlag, Flatten, Cut, IsMessage, InRead;
    LaterBase(s, st.base, st.base + 1, st.out);
    hide Readings;
  }

  lemma LaterBase(s: seq<Chunk>, base: nat, later: nat, out: seq<Reading>)
    requires Readings(s, base, out) && base <= later
    ensures Readings(s, later, out)
  {
    hide IsFirst, IsLast, OrderFlag, Flatten, Cut, IsMessage;
  }

  ghost function Skipped(st: State): State
    requires st.buf.acked <= |st.buf.cells|
  {
    var b := SkipBad(st.buf);
    State(st.base + (st.buf.acked - b.acked), b, st.out)
  }

  lemma {:induction false} SkipKeeps(s: seq<Chunk>, st: State)
    requires Framed(s) && Inv(s, st)
    ensures Inv(s, Skipped(st)) && Slots(s, Skipped(st))
    ensures Skipped(st).buf.acked == 0 || GoodStart(Skipped(st).buf)
    decreases st.buf.acked
  {
    hide IsFirst, IsLast, OrderFlag, Framed, InRead, Readings, Progress, GoodStart;
    if st.buf.acked > 0 && !GoodStart(st.buf) {
      BadIsRead(s, st);
      DropKeeps(s, st);
      SkipKeeps(s, State(st.base + 1, Drop(st.buf), st.out));
      hide Slots;
    }
  }

  // ---------- finding ----------

  lemma {:induction false} FoundMessage(s: seq<Chunk>, st: State, i: nat, p: int)
    requires Framed(s) && Slots(s, st) && i <= st.buf.acked + st.buf.maxPos + 1 && -1 <= p < i
    requires p != -1 ==> st.base + i <= |s| && First(s, st.base + p) && NoFirst(s, st.base + p + 1, st.base + i)
    requires p != -1 ==> forall k | p <= k < i :: Unread(st.buf.cells[k])
    ensures var r := FindMsg(st.buf, i, p);
      r.Found? ==>
        && IsMessage(s, st.base + r.p, st.base + r.q)
        && (forall k | r.p <= k <= r.q :: Unread(st.buf.cells[k]))
        && (r.q >= st.buf.acked ==> !OrderFlag(s[st.base + r.q].header))
    decreases st.buf.acked + st.buf.maxPos + 1 - i
  {
    hide IsFirst, IsLast, OrderFlag, InRead, Framed;
    if i <= st.buf.acked + st.buf.maxPos {
      var c := st.buf.cells[i];
      assert c.Held? ==> st.base + i < |s| && c.chunk == s[st.base + i];
      hide Slots;
      FoundMessage(s, st, i + 1, HeadAfter(c, i, p));
    }
  }

  /** With a good start, a message found within the acknowledged part is the one at the read point; and unless one
      is found there, none ends there. */
  lemma {:induction false} FromTheStart(s: seq<Chunk>, st: State, i: nat, p: int)
    requires Framed(s) && Slots(s, st) && 0 < st.buf.acked && i <= st.buf.acked && st.base < |s|
    requires Unread(st.buf.cells[0]) && First(s, st.base)
    requires WholeAhead(st.buf, i) && (if i == 0 then p == -1 else p == 0)
    requires NoFinal(s, st.base, st.base + i)
    ensures var r := FindMsg(st.buf, i, p);
      && (r.Found? && r.q < st.buf.acked ==> r.p == 0)
      && (!(r.Found? && r.q < st.buf.acked) ==> NoFinal(s, st.base, st.base + st.buf.acked))
    decreases st.buf.acked - i
  {
    hide IsFirst, IsLast, OrderFlag, InRead;
    if i < st.buf.acked {
      assert st.buf.cells[i].Held?;
      if i > 0 {
        assert Final(s, st.base + (i - 1)) <==> First(s, st.base + i);
      }
      if !Final(s, st.base + i) {
        FromTheStart(s, st, i + 1, 0);
      }
    } else {
      LaterFound(st.buf, i, p);
    }
  }

  lemma {:induction false} LaterFound(b: Buf, i: nat, p: int)
    requires Bounded(b) && i <= b.acked + b.maxPos + 1 && -1 <= p < i
    ensures FindMsg(b, i, p).Found? ==> FindMsg(b, i, p).q >= i
  {
  }

  // ---------- taking ----------

  lemma InReadMore(out: seq<Reading>, r: Reading, j: int)
    ensures InRead(out + [r], j) <==> InRead(out, j) || r.h <= j <= r.t
  {
    var now := out + [r];
    assert now[|out|] == r;
    if InRead(out, j) {
      var a :| 0 <= a < |out| && out[a].h <= j <= out[a].t;
      assert now[a] == out[a];
    }
  }

  lemma {:induction false} PayloadIsFlatten(cells: seq<Cell>, chunks: seq<Chunk>)
    requires |cells| == |chunks|
    requires forall i | 0 <= i < |cells| :: cells[i].Held? && cells[i].chunk == chunks[i]
    ensures Payload(cells) == Flatten(chunks)
  {
    if cells != [] {
      PayloadIsFlatten(cells[..|cells| - 1], chunks[..|chunks| - 1]);
    }
  }

  /** What a scan can find in a skipped buffer. */
  ghost predicate Readable(s: seq<Chunk>, st: State, p: nat, q: nat)
    requires Slots(s, st)
  {
    && p <= q < |st.buf.cells| && IsMessage(s, st.base + p, st.base + q)
    && (forall k | p <= k <= q :: Unread(st.buf.cells[k]))
    && (if q < st.buf.acked then p == 0 else !OrderFlag(s[st.base + q].header))
  }

  ghost function Taken(s: seq<Chunk>, st: State, p: nat, q: nat, len: nat): (r: Reading)
    requires Slots(s, st) && Readable(s, st, p, q)
  {
    Reading(st.base + p, st.base + q, len, Cut(Flatten(s[st.base + p..st.base + q + 1]), len))
  }

  lemma TakenPayload(s: seq<Chunk>, st: State, p: nat, q: nat, len: nat)
    requires Slots(s, st) && Readable(s, st, p, q)
    ensures Cut(Payload(st.buf.cells[p..q + 1]), len) == Taken(s, st, p, q, len).bytes
  {
    hide IsFirst, IsLast, OrderFlag, InRead, NoFirst;
    PayloadIsFlatten(st.buf.cells[p..q + 1], s[st.base + p..st.base + q + 1]);
  }

  lemma NotReadBefore(s: seq<Chunk>, st: State, p: nat, q: nat)
    requires Inv(s, st) && Readable(s, st, p, q)
    ensures forall a | 0 <= a < |st.out| :: st.out[a].h != st.base + p
  {
    hide IsFirst, IsLast, OrderFlag, Flatten, Cut;
    assert !InRead(st.out, st.base + p);
    forall a | 0 <= a < |st.out|
      ensures st.out[a].h != st.base + p
    {
      assert IsMessage(s, st.out[a].h, st.out[a].t);
    }
  }

  /** out now counts packets lo to hi as read, too. */
  ghost predicate ReadMore(out: seq<Reading>, now: seq<Reading>, lo: int, hi: int) {
    forall j: int :: InRead(now, j) <==> InRead(out, j) || lo <= j <= hi
  }

  lemma TakenReadMore(s: seq<Chunk>, st: State, p: nat, q: nat, len: nat)
    requires Slots(s, st) && Readable(s, st, p, q)
    ensures ReadMore(st.out, st.out + [Taken(s, st, p, q, len)], st.base + p, st.base + q)
  {
    hide IsFirst, IsLast, OrderFlag, Flatten, Cut, IsMessage, Slots;
    var r := Taken(s, st, p, q, len);
    forall j: int
      ensures InRead(st.out + [r], j) <==> InRead(st.out, j) || r.h <= j <= r.t
    {
      InReadMore(st.out, r, j);
    }
  }

  lemma MarkKeeps(s: seq<Chunk>, st: State, p: nat, q: nat, now: seq<Reading>)
    requires Slots(s, st) && Progress(s, st) && p <= q < |st.buf.cells| && q >= st.buf.acked
    requires forall k | p <= k <= q :: Unread(st.buf.cells[k])
    requires ReadMore(st.out, now, st.base + p, st.base + q)
    ensures var next := State(st.base, TakeMsg(st.buf, p, q), now);
      Slots(s, next) && Progress(s, next)
  {
    MarkedCells(st.buf, p, q);
    hide InRead, TakeMsg;
    MarkedSlots(s, st, p, q, now, TakeMsg(st.buf, p, q));
    MarkedProgress(s, st, p, q, now, TakeMsg(st.buf, p, q));
    hide Slots, Progress;
  }

  /** Slots p to q of the buffer are marked. */
  ghost predicate MarksOnly(was: Buf, now: Buf, p: nat, q: nat) {
    && now == was.(cells := now.cells) && |now.cells| == |was.cells|
    && forall i | 0 <= i < |was.cells| ::
         now.cells[i] == if p <= i <= q then ReadAlready(was.cells[i]) else was.cells[i]
  }

  lemma MarkedSlots(s: seq<Chunk>, st: State, p: nat, q: nat, now: seq<Reading>, b: Buf)
    requires Slots(s, st) && MarksOnly(st.buf, b, p, q) && p <= q < |st.buf.cells| && q >= st.buf.acked
    requires forall k | p <= k <= q :: Unread(st.buf.cells[k])
    requires ReadMore(st.out, now, st.base + p, st.base + q)
    ensures Slots(s, State(st.base, b, now))
  {
    hide InRead;
  }

  lemma MarkedProgress(s: seq<Chunk>, st: State, p: nat, q: nat, now: seq<Reading>, b: Buf)
    requires Progress(s, st) && MarksOnly(st.buf, b, p, q) && p <= q < |st.buf.cells|
    requires forall k | p <= k <= q :: Unread(st.buf.cells[k])
    requires ReadMore(st.out, now, st.base + p, st.base + q)
    ensures Progress(s, State(st.base, b, now))
  {
    hide InRead;
  }

  lemma MarkedCells(b: Buf, p: nat, q: nat)
    requires p <= q < |b.cells| && q >= b.acked
    requires forall k | p <= k <= q :: Unread(b.cells[k])
    ensures MarksOnly(b, TakeMsg(b, p, q), p, q)
  {
    var cells := TakeMsg(b, p, q).cells;
    assert forall i | p <= i <= q :: cells[i] == ReadAlready(b.cells[i]);
    assert forall i | 0 <= i < |cells| && !(p <= i <= q) :: cells[i] == b.cells[i];
  }

  lemma FreedCells(b: Buf, q: nat)
    requires q < b.acked <= |b.cells|
    ensures TakeMsg(b, 0, q) == b.(cells := b.cells[q + 1..] + Blank(q + 1), acked := b.acked - (q + 1))
  {
    var cells := Marked(b.cells, 0, q + 1, Freed);
    assert forall i | 0 <= i <= q :: cells[i] == Freed(b.cells[i]);
    assert forall i | q < i < |b.cells| :: cells[i] == b.cells[i];
    assert cells[q + 1..] == b.cells[q + 1..];
    assert cells[..q + 1] == Blank(q + 1);
  }

  lemma FreeKeeps(s: seq<Chunk>, st: State, q: nat, now: seq<Reading>)
    requires Slots(s, st) && Progress(s, st) && q < st.buf.acked
    requires ReadMore(st.out, now, st.base, st.base + q)
    ensures var next := State(st.base + q + 1, TakeMsg(st.buf, 0, q), now);
      Slots(s, next) && Progress(s, next)
  {
    hide InRead;
    FreedCells(st.buf, q);
    hide TakeMsg;
    var cells := st.buf.cells[q + 1..] + Blank(q + 1);
    assert forall i | 0 <= i < |cells| && cells[i].Held? :: i + q + 1 < |cells| && cells[i] == st.buf.cells[i + q + 1];
  }

  lemma ReadingsMore(s: seq<Chunk>, base: nat, later: nat, out: seq<Reading>, r: Reading)
    requires Readings(s, base, out) && base <= later
    requires IsMessage(s, r.h, r.t) && r.bytes == Cut(Flatten(s[r.h..r.t + 1]), r.len)
    requires forall a | 0 <= a < |out| :: out[a].h != r.h
    requires OrderFlag(s[r.t].header) ==> base <= r.h && r.t < later
    ensures Readings(s, later, out + [r])
  {
    hide IsFirst, IsLast, OrderFlag, Flatten, Cut, NoFirst;
  }

  /** A message read before all of its packets are acknowledged stays in the buffer, marked. */
  lemma TakeUnacked(s: seq<Chunk>, st: State, p: nat, q: nat, len: nat)
    requires Inv(s, st) && Readable(s, st, p, q) && q >= st.buf.acked
    ensures Inv(s, State(st.base, TakeMsg(st.buf, p, q), st.out + [Taken(s, st, p, q, len)]))
  {
    NotReadBefore(s, st, p, q);
    TakenReadMore(s, st, p, q, len);
    hide Slots, Progress, Readings, ReadMore, IsMessage, Flatten, Cut, OrderFlag, TakeMsg;
    MarkKeeps(s, st, p, q, st.out + [Taken(s, st, p, q, len)]);
    ReadingsMore(s, st.base, st.base, st.out, Taken(s, st, p, q, len));
  }

  /** Any other message read moves the read point past it. */
  lemma TakeAcked(s: seq<Chunk>, st: State, q: nat, len: nat)
    requires Inv(s, st) && Readable(s, st, 0, q) && q < st.buf.acked
    ensures Inv(s, State(st.base + q + 1, TakeMsg(st.buf, 0, q), st.out + [Taken(s, st, 0, q, len)]))
  {
    NotReadBefore(s, st, 0, q);
    TakenReadMore(s, st, 0, q, len);
    hide Slots, Progress, Readings, ReadMore, IsMessage, Flatten, Cut, OrderFlag, TakeMsg;
    FreeKeeps(s, st, q, st.out + [Taken(s, st, 0, q, len)]);
    ReadingsMore(s, st.base, st.base + q + 1, st.out, Taken(s, st, 0, q, len));
  }

  // ---------- every run ----------

  lemma ScanIsReadable(s: seq<Chunk>, st: State)
    requires Framed(s) && Inv(s, st) && (st.buf.acked == 0 || GoodStart(st.buf))
    ensures var r := FindMsg(st.buf, 0, -1);
      && (r.Found? ==> Readable(s, st, r.p, r.q))
      && (r.NotFound? ==> NoFinal(s, st.base, st.base + st.buf.acked))
  {
    FoundMessage(s, st, 0, -1);
    if st.buf.acked > 0 {
      assert st.buf.cells[0].Held?;
      FromTheStart(s, st, 0, -1);
    }
    hide FindMsg, IsMessage, Framed, Readings, Progress, InRead, IsFirst, IsLast, OrderFlag, WholeAhead;
  }

  /** The state after packets p to q have been read. */
  ghost function TakenState(st: State, p: nat, q: nat, len: nat): State
    requires p <= q < |st.buf.cells|
  {
    var b' := TakeMsg(st.buf, p, q);
    var r := Reading(st.base + p, st.base + q, len, Cut(Payload(st.buf.cells[p..q + 1]), len));
    State(st.base + (if q < st.buf.acked then q + 1 else 0), b', st.out + [r])
  }

  lemma AfterReadIs(st: State, len: nat)
    requires Bounded(st.buf) && (st.buf.acked != 0 || st.buf.maxPos != 0)
    ensures Bounded(Skipped(st).buf)
    ensures var now := Skipped(st);
      match FindMsg(now.buf, 0, -1)
      case NotFound => AfterRead(st, len) == now
      case Found(p, q) =>
        AfterRead(st, len) == TakenState(now, p, q, len)
  {
    hide SkipBad, FindMsg, Marked, Payload, Cut;
  }

  lemma TakeKeeps(s: seq<Chunk>, st: State, p: nat, q: nat, len: nat)
    requires Inv(s, st) && Readable(s, st, p, q)
    ensures Inv(s, TakenState(st, p, q, len))
  {
    TakenPayload(s, st, p, q, len);
    hide Inv, TakeMsg, Payload, Cut, Flatten, IsMessage, Slots;
    if q < st.buf.acked {
      TakeAcked(s, st, q, len);
    } else {
      TakeUnacked(s, st, p, q, len);
    }
  }

  lemma NothingThere(s: seq<Chunk>, st: State, len: nat)
    requires Inv(s, st)
    ensures Bounded(st.buf) && st.buf.acked <= |st.buf.cells|
    ensures st.buf.acked == 0 && st.buf.maxPos == 0 ==> AfterRead(st, len) == st
  {
  }

  lemma ReadKeeps(s: seq<Chunk>, st: State, len: nat)
    requires Framed(s) && Inv(s, st)
    ensures Inv(s, AfterRead(st, len))
  {
    NothingThere(s, st, len);
    hide *;
    if st.buf.acked != 0 || st.buf.maxPos != 0 {
      SkipKeeps(s, st);
      ScanIsReadable(s, Skipped(st));
      AfterReadIs(st, len);
      var r := FindMsg(Skipped(st).buf, 0, -1);
      if r.Found? {
        TakeKeeps(s, Skipped(st), r.p, r.q, len);
      }
    }
  }

  lemma NextInv(s: seq<Chunk>, st: State, step: Step)
    requires Framed(s) && Inv(s, st)
    ensures Inv(s, Next(s, st, step))
  {
    match step
    case Arrive(j) => ArriveKeeps(s, st, j);
    case Acknowledge(n) => AcknowledgeKeeps(s, st, n);
    case Read(len) =>
      ReadKeeps(s, st, len);
      NothingThere(s, st, len);
      hide *;
      ReadIsPossible(s, st, len);
  }

  lemma ReadIsPossible(s: seq<Chunk>, st: State, len: nat)
    requires Bounded(st.buf)
    ensures Next(s, st, Read(len)) == AfterRead(st, len)
  {
  }

  lemma {:induction false} RunInv(s: seq<Chunk>, size: nat, steps: seq<Step>)
    requires Framed(s) && size > 0
    ensures Inv(s, Run(s, size, steps))
  {
    if steps == [] {
      InitInv(s, size);
    } else {
      RunInv(s, size, steps[..|steps| - 1]);
      NextInv(s, Run(s, size, steps[..|steps| - 1]), steps[|steps| - 1]);
    }
    hide Inv, Framed, Next, Init;
  }

  lemma InitInv(s: seq<Chunk>, size: nat)
    requires size > 0
    ensures Inv(s, Init(size))
  {
    hide IsFirst, IsLast, OrderFlag, IsMessage, Flatten, Cut;
  }

  // ---------- packets and messages ----------

  ghost predicate Numbered(calls: seq<Call>) {
    forall i | 0 <= i < |calls| :: calls[i].msgNo <= MAX_MSG_NO
  }

  /** The packets of one message: only the first says so, only the last says so, and all keep the order flag. */
  ghost predicate OneMessage(s: seq<Chunk>, order: bool, first: bool) {
    && (forall j | 0 <= j < |s| :: First(s, j) <==> j == 0 && first)
    && (forall j | 0 <= j < |s| :: Final(s, j) <==> j == |s| - 1)
    && (forall j | 0 <= j < |s| :: OrderFlag(s[j].header) == order)
  }

  lemma {:induction false} ChopIsOneMessage(data: seq<byte>, mss: int, msgNo: bv32, order: bool, first: bool)
    requires mss > 0 && msgNo <= MAX_MSG_NO
    ensures OneMessage(S.Chop(data, mss, msgNo, order, first), order, first)
    ensures S.Chop(data, mss, msgNo, order, first) == [] <==> data == []
    decreases |data|
  {
    HeaderRoundTrip(msgNo, order, first, |data| <= mss);
    hide MakeHeader, IsFirst, IsLast, OrderFlag, MsgSeq, Boundary;
    if |data| > mss {
      ChopIsOneMessage(data[mss..], mss, msgNo, order, false);
      var rest := S.Chop(data[mss..], mss, msgNo, order, false);
      var all := S.Chop(data, mss, msgNo, order, first);
      forall j | 1 <= j < |all|
        ensures First(all, j) == First(rest, j - 1) && Final(all, j) == Final(rest, j - 1)
        ensures OrderFlag(all[j].header) == OrderFlag(rest[j - 1].header)
      {
        assert all[j] == rest[j - 1];
      }
    }
  }

  lemma FramedMore(a: seq<Chunk>, b: seq<Chunk>, order: bool)
    requires Framed(a) && OneMessage(b, order, true) && b != []
    ensures Framed(a + b) && IsMessage(a + b, |a|, |a| + |b| - 1)
  {
    hide IsFirst, IsLast, OrderFlag;
    var s := a + b;
    forall j | 0 <= j < |s|
      ensures First(s, j) == if j < |a| then First(a, j) else First(b, j - |a|)
      ensures Final(s, j) == if j < |a| then Final(a, j) else Final(b, j - |a|)
      ensures s[j] == if j < |a| then a[j] else b[j - |a|]
    {
    }
  }

  lemma {:induction false} SentFramed(calls: seq<Call>, mss: int)
    requires mss > 0 && Numbered(calls)
    ensures Framed(Sent(calls, mss))
  {
    if calls != [] {
      var init, c := calls[..|calls| - 1], calls[|calls| - 1];
      SentFramed(init, mss);
      ChopIsOneMessage(c.data, mss, c.msgNo, c.order, true);
      var chunks := S.Chop(c.data, mss, c.msgNo, c.order, true);
      hide Framed, OneMessage;
      if chunks != [] {
        FramedMore(Sent(init, mss), chunks, c.order);
      } else {
        assert Sent(init, mss) + chunks == Sent(init, mss);
      }
    }
  }

  /** Packets h to t are those of one call. */
  ghost predicate OfCall(calls: seq<Call>, mss: int, i: nat, h: nat, t: nat)
    requires mss > 0
  {
    && i < |calls| && h == |Sent(calls[..i], mss)| && t + 1 == |Sent(calls[..i + 1], mss)| <= |Sent(calls, mss)|
    && h <= t && Flatten(Sent(calls, mss)[h..t + 1]) == calls[i].data
    && OrderFlag(Sent(calls, mss)[t].header) == calls[i].order
  }

  lemma {:induction false} MessageIsCall(calls: seq<Call>, mss: int, h: nat, t: nat) returns (i: nat)
    requires mss > 0 && Numbered(calls) && IsMessage(Sent(calls, mss), h, t)
    ensures OfCall(calls, mss, i, h, t)
  {
    SomeCall(calls, mss, h, t);
    hide Sent, Numbered, Framed, OneMessage, OrderFlag, IsFirst, IsLast, IsMessage, OfCall, S.Chop;
    var init, c := calls[..|calls| - 1], calls[|calls| - 1];
    SentLast(calls, mss);
    if t < |Sent(init, mss)| {
      MessageInPrefix(Sent(init, mss), S.Chop(c.data, mss, c.msgNo, c.order, true), h, t);
      i := MessageIsCall(init, mss, h, t);
      CallInPrefix(calls, mss, i, h, t);
    } else {
      i := |calls| - 1;
      MessageOfLast(calls, mss, h, t);
    }
  }

  lemma SomeCall(calls: seq<Call>, mss: int, h: nat, t: nat)
    requires mss > 0 && Numbered(calls) && IsMessage(Sent(calls, mss), h, t)
    ensures calls != [] && Numbered(calls[..|calls| - 1])
  {
  }

  /** A message that does not lie in the packets of the earlier calls is the last one's. */
  lemma MessageOfLast(calls: seq<Call>, mss: int, h: nat, t: nat)
    requires mss > 0 && Numbered(calls) && calls != [] && IsMessage(Sent(calls, mss), h, t)
    requires t >= |Sent(calls[..|calls| - 1], mss)|
    ensures OfCall(calls, mss, |calls| - 1, h, t)
  {
    var init, c := calls[..|calls| - 1], calls[|calls| - 1];
    var a, b := Sent(init, mss), S.Chop(c.data, mss, c.msgNo, c.order, true);
    SentFramed(init, mss);
    ChopIsOneMessage(c.data, mss, c.msgNo, c.order, true);
    SentLast(calls, mss);
    hide Sent, Framed, OneMessage, OrderFlag, IsFirst, IsLast, IsMessage, Flatten, S.Chop;
    assert calls[..|calls|] == calls;
    LastIsCall(a, b, c.order, h, t);
    S.ChopFlatten(c.data, mss, c.msgNo, c.order, true);
    assert (a + b)[|a|..|a| + |b|] == b;
  }

  lemma MessageInPrefix(a: seq<Chunk>, b: seq<Chunk>, h: int, t: int)
    requires IsMessage(a + b, h, t) && t < |a|
    ensures IsMessage(a, h, t)
  {
    hide IsFirst, IsLast;
    forall j | h < j <= t
      ensures !First(a, j)
    {
      assert !First(a + b, j);
    }
  }

  lemma LastIsCall(a: seq<Chunk>, b: seq<Chunk>, order: bool, h: nat, t: nat)
    requires Framed(a) && OneMessage(b, order, true) && IsMessage(a + b, h, t) && t >= |a|
    ensures h == |a| && t == |a| + |b| - 1 && OrderFlag((a + b)[t].header) == order
  {
    FramedMore(a, b, order);
    SameMessage(a + b, h, t, |a|, |a| + |b| - 1, t);
    assert (a + b)[t] == b[|b| - 1];
    hide IsFirst, IsLast, OrderFlag, Framed;
  }

  lemma CallInPrefix(calls: seq<Call>, mss: int, i: nat, h: nat, t: nat)
    requires mss > 0 && calls != [] && OfCall(calls[..|calls| - 1], mss, i, h, t)
    ensures OfCall(calls, mss, i, h, t)
  {
    hide OrderFlag;
    var init := calls[..|calls| - 1];
    assert init[..i] == calls[..i] && init[..i + 1] == calls[..i + 1];
    assert Sent(calls, mss)[h..t + 1] == Sent(init, mss)[h..t + 1];
  }

  lemma {:induction false} SentGrows(calls: seq<Call>, mss: int, i: nat, j: nat)
    requires mss > 0 && i <= j <= |calls|
    ensures |Sent(calls[..i], mss)| <= |Sent(calls[..j], mss)|
    decreases j
  {
    if i < j {
      SentGrows(calls, mss, i, j - 1);
      assert calls[..j][..j - 1] == calls[..j - 1];
    }
  }

  // ---------- the theorems ----------

  /** piece is what a reader with room for len bytes gets of a message. */
  ghost predicate IsCut(piece: seq<byte>, message: seq<byte>, len: nat) {
    piece <= message && |piece| == if len < |message| then len else |message|
  }

  lemma CutExact(message: seq<byte>, len: nat)
    ensures IsCut(Cut(message, len), message, len)
  {
  }

  /** Reading a is the payload of call of[a], cut to the reader's length; no call is read twice, and those that keep
      their order are read in that order. */
  ghost predicate EachOnce(calls: seq<Call>, out: seq<Reading>, of: seq<nat>) {
    && |of| == |out|
    && (forall a | 0 <= a < |out| :: of[a] < |calls| && IsCut(out[a].bytes, calls[of[a]].data, out[a].len))
    && (forall a, b | 0 <= a < b < |out| :: of[a] != of[b])
    && (forall a, b | 0 <= a < b < |out| && calls[of[a]].order && calls[of[b]].order :: of[a] < of[b])
  }

  /** In a state that keeps the invariant every message read is the payload of exactly one call. */
  lemma OncePerCall(calls: seq<Call>, mss: int, st: State) returns (of: seq<nat>)
    requires mss > 0 && Numbered(calls) && Inv(Sent(calls, mss), st)
    ensures EachOnce(calls, st.out, of)
  {
    hide IsFirst, IsLast, OrderFlag, Framed, Slots, Progress, Cut, Sent, Flatten;
    of := [];
    for a := 0 to |st.out|
      invariant |of| == a
      invariant forall k | 0 <= k < a :: OfCall(calls, mss, of[k], st.out[k].h, st.out[k].t)
      invariant forall k | 0 <= k < a :: IsCut(st.out[k].bytes, calls[of[k]].data, st.out[k].len)
    {
      var i := MessageIsCall(calls, mss, st.out[a].h, st.out[a].t);
      of := of + [i];
      CutExact(calls[i].data, st.out[a].len);
    }
    hide Numbered, IsMessage;
    forall a, b | 0 <= a < b < |st.out| && calls[of[a]].order && calls[of[b]].order
      ensures of[a] < of[b]
    {
      if of[b] <= of[a] {
        SentGrows(calls, mss, of[b], of[a]);
      }
    }
  }

  /** Every message read is the payload of exactly one call, cut to the reader's length; no message is read twice;
      and messages that keep their order are read in the order of their calls. */
  lemma {:induction false} EachMessageOnce(calls: seq<Call>, mss: int, size: nat, steps: seq<Step>)
    returns (of: seq<nat>)
    requires mss > 0 && size > 0 && Numbered(calls)
    ensures EachOnce(calls, Run(Sent(calls, mss), size, steps).out, of)
  {
    SentFramed(calls, mss);
    RunInv(Sent(calls, mss), size, steps);
    hide Inv, Run;
    of := OncePerCall(calls, mss, Run(Sent(calls, mss), size, steps));
  }

  lemma MessageExtends(a: seq<Chunk>, b: seq<Chunk>, h: int, t: int)
    requires IsMessage(a, h, t)
    ensures IsMessage(a + b, h, t)
  {
    hide IsFirst, IsLast;
    forall j | h < j <= t
      ensures !First(a + b, j)
    {
      assert !First(a, j);
    }
  }

  lemma SentLast(calls: seq<Call>, mss: int)
    requires mss > 0 && calls != []
    ensures var c := calls[|calls| - 1];
      Sent(calls, mss) == Sent(calls[..|calls| - 1], mss) + S.Chop(c.data, mss, c.msgNo, c.order, true)
  {
  }

  lemma {:induction false} SentPrefix(calls: seq<Call>, mss: int, j: nat)
    requires mss > 0 && j <= |calls|
    ensures Sent(calls[..j], mss) <= Sent(calls, mss)
  {
    if j == |calls| {
      assert calls[..j] == calls;
    } else {
      SentLast(calls, mss);
      SentPrefix(calls[..|calls| - 1], mss, j);
      assert calls[..|calls| - 1][..j] == calls[..j];
    }
  }

  lemma CallIsMessage(calls: seq<Call>, mss: int, i: nat)
    requires mss > 0 && Numbered(calls) && i < |calls| && calls[i].data != []
    ensures |Sent(calls[..i], mss)| < |Sent(calls[..i + 1], mss)|
    ensures IsMessage(Sent(calls, mss), |Sent(calls[..i], mss)|, |Sent(calls[..i + 1], mss)| - 1)
  {
    var c := calls[i];
    var a, b := Sent(calls[..i], mss), S.Chop(c.data, mss, c.msgNo, c.order, true);
    SentFramed(calls[..i], mss);
    ChopIsOneMessage(c.data, mss, c.msgNo, c.order, true);
    SentLast(calls[..i + 1], mss);
    SentPrefix(calls, mss, i + 1);
    hide *;
    assert calls[..i + 1][..i] == calls[..i];
    FramedMore(a, b, c.order);
    var rest := Sent(calls, mss)[|a + b|..];
    assert Sent(calls, mss) == a + b + rest;
    MessageExtends(a + b, rest, |a|, |a| + |b| - 1);
  }

  lemma CallKeepsOrder(calls: seq<Call>, mss: int, i: nat)
    requires mss > 0 && Numbered(calls) && i < |calls| && calls[i].data != []
    ensures 0 < |Sent(calls[..i + 1], mss)| <= |Sent(calls, mss)|
    ensures OrderFlag(Sent(calls, mss)[|Sent(calls[..i + 1], mss)| - 1].header) == calls[i].order
  {
    var c := calls[i];
    var a, b := Sent(calls[..i], mss), S.Chop(c.data, mss, c.msgNo, c.order, true);
    ChopIsOneMessage(c.data, mss, c.msgNo, c.order, true);
    SentLast(calls[..i + 1], mss);
    SentPrefix(calls, mss, i + 1);
    hide Sent, S.Chop, Numbered, IsFirst, IsLast, OrderFlag;
    assert calls[..i + 1][..i] == calls[..i];
    assert OrderFlag(b[|b| - 1].header) == c.order;
    assert (a + b)[|a + b| - 1] == b[|b| - 1];
  }

  lemma ReadFindsNothing(s: seq<Chunk>, st: State, len: nat)
    requires Framed(s) && Inv(s, st) && AfterRead(st, len).out == st.out
    ensures NoFinal(s, AfterRead(st, len).base, AfterRead(st, len).base + AfterRead(st, len).buf.acked)
  {
    NothingThere(s, st, len);
    hide Inv, Framed, GoodStart, AfterRead, FindMsg, IsMessage, Cut, Payload, TakeMsg, SkipBad;
    if st.buf.acked != 0 || st.buf.maxPos != 0 {
      SkipKeeps(s, st);
      ScanIsReadable(s, Skipped(st));
      AfterReadIs(st, len);
    }
  }

  lemma ReadPast(s: seq<Chunk>, st: State, h: nat, t: nat)
    requires Framed(s) && Inv(s, st) && IsMessage(s, h, t) && t < st.base
    ensures exists a :: 0 <= a < |st.out| && st.out[a].h == h
  {
    hide IsFirst, IsLast, OrderFlag, Slots, Flatten, Cut, NoFirst;
    assert InRead(st.out, t);
    var a :| 0 <= a < |st.out| && st.out[a].h <= t <= st.out[a].t;
    SameMessage(s, h, t, st.out[a].h, st.out[a].t, t);
  }

  lemma LeftBehind(s: seq<Chunk>, st: State, len: nat, h: nat, t: nat)
    requires Framed(s) && Inv(s, st) && IsMessage(s, h, t)
    requires var next := AfterRead(st, len); next.out == st.out && t < next.base + next.buf.acked
    ensures exists a :: 0 <= a < |st.out| && st.out[a].h == h
  {
    var next := AfterRead(st, len);
    ReadKeeps(s, st, len);
    ReadFindsNothing(s, st, len);
    hide Framed, Inv, AfterRead, IsFirst, IsLast, NoFirst;
    ReadPast(s, next, h, t);
  }

  /** When a read finds nothing, every message whose packets are all acknowledged has been read. */
  lemma {:induction false} NothingLeftBehind(calls: seq<Call>, mss: int, size: nat, steps: seq<Step>, len: nat, i: nat)
    requires mss > 0 && size > 0 && Numbered(calls) && i < |calls| && calls[i].data != []
    requires var s := Sent(calls, mss); var st := Run(s, size, steps); var next := Next(s, st, Read(len));
      next.out == st.out && |Sent(calls[..i + 1], mss)| <= next.base + next.buf.acked
    ensures var out := Run(Sent(calls, mss), size, steps).out;
      exists a :: 0 <= a < |out| && out[a].h == |Sent(calls[..i], mss)|
  {
    hide *;
    var s := Sent(calls, mss);
    var st := Run(s, size, steps);
    SentFramed(calls, mss);
    RunInv(s, size, steps);
    CallIsMessage(calls, mss, i);
    NothingThere(s, st, len);
    ReadIsPossible(s, st, len);
    LeftBehind(s, st, len, |Sent(calls[..i], mss)|, |Sent(calls[..i + 1], mss)| - 1);
  }

  // ---------- ahead of their turn ----------

  /** All packets of message h to t are in the buffer, and it has not been read. */
  ghost predicate Arrived(s: seq<Chunk>, st: State, h: nat, t: nat) {
    && st.base <= h <= t && t - st.base < |st.buf.cells| && IsMessage(s, h, t)
    && (forall i | h - st.base <= i <= t - st.base :: st.buf.cells[i].Held?)
    && (forall j | h <= j <= t :: !InRead(st.out, j))
  }

  lemma {:induction false} SkippingSpares(s: seq<Chunk>, st: State, h: nat, t: nat)
    requires Framed(s) && Inv(s, st) && Arrived(s, st, h, t)
    ensures Arrived(s, Skipped(st), h, t)
    decreases st.buf.acked
  {
    hide IsFirst, IsLast, OrderFlag, Framed, InRead, Readings, Progress, GoodStart, IsMessage;
    if st.buf.acked > 0 && !GoodStart(st.buf) {
      BadIsRead(s, st);
      DropKeeps(s, st);
      assert st.base != h;
      assert forall i | 0 <= i < |st.buf.cells| - 1 :: Drop(st.buf).cells[i] == st.buf.cells[i + 1];
      SkippingSpares(s, State(st.base + 1, Drop(st.buf), st.out), h, t);
      hide Slots;
    }
  }

  /** Such a message is ready to be read if it need not keep its order. */
  lemma ArrivedIsReady(s: seq<Chunk>, st: State, h: nat, t: nat)
    requires Slots(s, st) && Arrived(s, st, h, t) && !OrderFlag(s[t].header)
    ensures Ready(st.buf, h - st.base, t - st.base)
  {
    hide IsFirst, IsLast, OrderFlag, InRead;
    forall i | h - st.base <= i <= t - st.base
      ensures Unread(st.buf.cells[i]) && st.buf.cells[i].chunk == s[st.base + i]
    {
      assert !InRead(st.out, st.base + i);
    }
    forall i | h - st.base < i <= t - st.base
      ensures !IsFirst(st.buf.cells[i].chunk.header)
    {
      assert !First(s, st.base + i);
    }
  }

  lemma ArrivedIsFound(s: seq<Chunk>, st: State, len: nat, h: nat, t: nat)
    requires Framed(s) && Inv(s, st) && Arrived(s, st, h, t) && !OrderFlag(s[t].header)
    ensures AfterRead(st, len).out != st.out <==> st.buf.acked > 0 || st.buf.maxPos > 0
  {
    NothingThere(s, st, len);
    hide *;
    if st.buf.acked != 0 || st.buf.maxPos != 0 {
      SkipKeeps(s, st);
      SkippingSpares(s, st, h, t);
      AfterReadIs(st, len);
      var now := Skipped(st);
      SkippedOut(st);
      ArrivedIsReady(s, now, h, t);
      FindsFirst(now.buf);
      assert Ready(now.buf, h - now.base, t - now.base);
      var r := FindMsg(now.buf, 0, -1);
      TakesOne(now, r.p, r.q, len);
    }
  }

  lemma SkippedOut(st: State)
    requires st.buf.acked <= |st.buf.cells|
    ensures Skipped(st).out == st.out
  {
  }

  lemma TakesOne(st: State, p: nat, q: nat, len: nat)
    requires p <= q < |st.buf.cells|
    ensures |TakenState(st, p, q, len).out| == |st.out| + 1
  {
    hide TakeMsg, Payload, Cut;
  }

  /** When a message that need not keep its order has arrived in whole and has not been read, the next read finds a
      message if and only if anything is acknowledged or has arrived behind the read point. */
  lemma {:induction false} FoundAhead(s: seq<Chunk>, size: nat, steps: seq<Step>, len: nat, h: nat, t: nat)
    requires Framed(s) && size > 0 && Arrived(s, Run(s, size, steps), h, t) && !OrderFlag(s[t].header)
    ensures var st := Run(s, size, steps);
      Next(s, st, Read(len)).out != st.out <==> st.buf.acked > 0 || st.buf.maxPos > 0
  {
    var st := Run(s, size, steps);
    RunInv(s, size, steps);
    NothingThere(s, st, len);
    hide *;
    ReadIsPossible(s, st, len);
    ArrivedIsFound(s, st, len, h, t);
  }

  /** A message of one packet that is alone in the buffer has to wait. */
  lemma AloneWaits(chunk: Chunk)
    requires IsFirst(chunk.header) && IsLast(chunk.header) && !OrderFlag(chunk.header)
    ensures var s, arrived := [chunk], Run([chunk], 2, [Arrive(0)]);
      Framed(s) && Arrived(s, arrived, 0, 0) && Next(s, arrived, Read(9)) == arrived
  {
    var s := [chunk];
    hide IsFirst, IsLast, OrderFlag;
    var steps := [Arrive(0)];
    assert steps[..|steps| - 1] == [];
    assert Run(s, 2, steps[..|steps| - 1]) == Init(2);
    var st := Run(s, 2, steps);
    assert st == State(0, Buf([Held(chunk, 1), Empty], 0, 0, 0), []);
  }

  // ---------- how far the search goes ----------

  /** The largest packet number that has arrived, taken in or not. */
  ghost function Furthest(s: seq<Chunk>, size: nat, steps: seq<Step>): (n: nat)
    requires size > 0
  {
    if steps == [] then 0
    else
      var before, step := Furthest(s, size, steps[..|steps| - 1]), steps[|steps| - 1];
      if step.Arrive? && Can(s, Run(s, size, steps[..|steps| - 1]), step) && step.j > before then step.j else before
  }

  /** The last slot that a search looks at is that of the packet furthest ahead, or the first one not acknowledged. */
  lemma {:induction false} SearchedUpTo(s: seq<Chunk>, size: nat, steps: seq<Step>)
    requires Framed(s) && size > 0
    ensures var st, n := Run(s, size, steps), Furthest(s, size, steps); var first := st.base + st.buf.acked;
      first + st.buf.maxPos == if n > first then n else first
  {
    if steps != [] {
      var before, step := steps[..|steps| - 1], steps[|steps| - 1];
      SearchedUpTo(s, size, before);
      RunInv(s, size, before);
      var st := Run(s, size, before);
      if step.Read? {
        NothingThere(s, st, step.len);
        ReadKeepsReach(st, step.len);
      }
      hide AfterRead, Inv, Framed, IsFirst, IsLast, OrderFlag;
    }
  }

  lemma ReadKeepsReach(st: State, len: nat)
    requires Bounded(st.buf) && st.buf.acked <= |st.buf.cells|
    ensures var now := AfterRead(st, len);
      now.buf.maxPos == st.buf.maxPos && now.base + now.buf.acked == st.base + st.buf.acked
  {
    hide FindMsg, Payload, Cut;
  }
}
