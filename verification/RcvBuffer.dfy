/** The receive buffer: a ring of packet slots with a read point, an acknowledged point and a notch inside
    the first unread packet. */
module RcvBuffers {
  import opened Packets

  /** A slot of the ring. Flag 1 marks a packet still to be read, flag 2 one that was read out of order. */
  datatype Cell = Empty | Held(chunk: Chunk, flag: int)

  /** The ring as seen from its read point: cells[i] is the slot i places after it, and the first acked of
      them are acknowledged. */
  datatype Buf = Buf(cells: seq<Cell>, acked: nat, maxPos: nat, notch: nat)

  /** What a stream reader relies on: acknowledged slots are filled. */
  ghost predicate Readable(b: Buf) {
    && b.acked < |b.cells|
    && (forall i | 0 <= i < b.acked :: b.cells[i].Held?)
    && (b.notch > 0 ==> b.acked > 0 && b.notch <= |b.cells[0].chunk.bytes|)
  }

  function AvailSize(b: Buf): int {
    |b.cells| - b.acked - 1
  }

  /** Storing a packet offset places after the acknowledged point; a filled slot keeps what it has. */
  function AddData(b: Buf, chunk: Chunk, offset: nat): (Buf, bool)
    requires b.acked + offset < |b.cells|
  {
    var i := b.acked + offset;
    var m := if offset > b.maxPos then offset else b.maxPos;
    if b.cells[i].Held? then (b.(maxPos := m), false)
    else (b.(maxPos := m, cells := b.cells[i := Held(chunk, 1)]), true)
  }

  function AckData(b: Buf, len: nat): Buf {
    b.(acked := b.acked + len, maxPos := if b.maxPos < len then 0 else b.maxPos - len)
  }

  /** The first slot is emptied and the read point moves past it. */
  function Pop(b: Buf): Buf
    requires b.acked > 0 && |b.cells| > 0
  {
    Buf(b.cells[1..] + [Empty], b.acked - 1, b.maxPos, 0)
  }

  /** Taking up to len bytes of acknowledged data out of the buffer. */
  function Read(b: Buf, len: nat): (r: (Buf, seq<byte>))
    requires Readable(b)
    decreases b.acked
  {
    if b.acked == 0 || len == 0 then (b, [])
    else
      var bytes := b.cells[0].chunk.bytes;
      var remain := |bytes| - b.notch;
      if len >= remain then
        var (b', rest) := Read(Pop(b), len - remain);
        (b', bytes[b.notch..] + rest)
      else
        (b.(notch := b.notch + len), bytes[b.notch..b.notch + len])
  }

  function Chunks(cells: seq<Cell>): (r: seq<Chunk>)
    requires forall i | 0 <= i < |cells| :: cells[i].Held?
    ensures |r| == |cells| && forall i | 0 <= i < |r| :: r[i] == cells[i].chunk
  {
    seq(|cells|, i requires 0 <= i < |cells| => cells[i].chunk)
  }

  /** The acknowledged bytes that are still unread. */
  ghost function Stream(b: Buf): seq<byte>
    requires Readable(b)
  {
    NotchFits(b);
    Flatten(Chunks(b.cells[..b.acked]))[b.notch..]
  }

  lemma NotchFits(b: Buf)
    requires Readable(b)
    ensures b.notch <= |Flatten(Chunks(b.cells[..b.acked]))|
  {
    if b.acked > 0 {
      FlattenHead(Chunks(b.cells[..b.acked]));
    }
  }

  lemma StreamPop(b: Buf)
    requires Readable(b) && b.acked > 0
    ensures Readable(Pop(b)) && Stream(b) == b.cells[0].chunk.bytes[b.notch..] + Stream(Pop(b))
  {
    var chunks := Chunks(b.cells[..b.acked]);
    FlattenHead(chunks);
    assert Chunks(Pop(b).cells[..b.acked - 1]) == chunks[1..];
  }

  lemma StreamSkip(b: Buf, len: nat)
    requires Readable(b) && b.acked > 0 && len < |b.cells[0].chunk.bytes| - b.notch
    ensures Readable(b.(notch := b.notch + len)) && len <= |Stream(b)|
    ensures Stream(b.(notch := b.notch + len)) == Stream(b)[len..]
    ensures b.cells[0].chunk.bytes[b.notch..b.notch + len] == Stream(b)[..len]
  {
    FlattenHead(Chunks(b.cells[..b.acked]));
  }

  /** A read returns the next bytes of the stream, as many as there are up to len, and leaves the rest. */
  lemma {:induction false} ReadIsStream(b: Buf, len: nat)
    requires Readable(b)
    ensures var (b', out) := Read(b, len);
      && Readable(b') && b'.acked <= b.acked && |b'.cells| == |b.cells| && b'.maxPos == b.maxPos
      && |out| == (if len < |Stream(b)| then len else |Stream(b)|)
      && out == Stream(b)[..|out|] && Stream(b') == Stream(b)[|out|..]
    decreases b.acked
  {
    if b.acked > 0 && len > 0 {
      var bytes := b.cells[0].chunk.bytes;
      var remain := |bytes| - b.notch;
      if len >= remain {
        StreamPop(b);
        ReadIsStream(Pop(b), len - remain);
        hide Stream, Readable;
        assert |bytes[b.notch..]| == remain;
      } else {
        StreamSkip(b, len);
        hide Stream;
      }
    } else if b.acked == 0 {
      assert Chunks(b.cells[..0]) == [];
    }
  }

  /** The effect of one slot on a read. */
  lemma ReadStep(b: Buf, len: nat)
    requires Readable(b)
    ensures b.acked == 0 || len == 0 ==> Read(b, len) == (b, [])
    ensures b.acked > 0 && len > 0 ==>
      var bytes := b.cells[0].chunk.bytes;
      var remain := |bytes| - b.notch;
      if len >= remain then
        && Readable(Pop(b)) && Read(b, len).0 == Read(Pop(b), len - remain).0
        && Read(b, len).1 == bytes[b.notch..] + Read(Pop(b), len - remain).1
      else
        && Readable(b.(notch := b.notch + len))
        && Read(b, len) == (b.(notch := b.notch + len), bytes[b.notch..b.notch + len])
  {
  }

  function Blank(k: nat): seq<Cell> {
    seq(k, _ => Empty)
  }

  /** What is left in the ring is the old ring with the read slots emptied and moved to its end. */
  lemma {:induction false} ReadCells(b: Buf, len: nat)
    requires Readable(b)
    ensures var b' := Read(b, len).0;
      && b'.acked <= b.acked && b'.cells == b.cells[b.acked - b'.acked..] + Blank(b.acked - b'.acked)
    decreases b.acked
  {
    if b.acked > 0 && len > 0 && len >= |b.cells[0].chunk.bytes| - b.notch {
      var b1 := Pop(b);
      ReadCells(b1, len - (|b.cells[0].chunk.bytes| - b.notch));
      var b' := Read(b, len).0;
      var k := b1.acked - b'.acked;
      hide Read, Readable;
      assert b1.cells[k..] + Blank(k) == b.cells[k + 1..] + Blank(k + 1);
    }
  }

  /** A ring read from position start. */
  function Rotate(s: seq<Cell>, start: int): (r: seq<Cell>)
    requires 0 <= start < |s|
    ensures |r| == |s|
    ensures forall i | 0 <= i < |s| :: r[i] == s[if start + i < |s| then start + i else start + i - |s|]
  {
    s[start..] + s[..start]
  }

  lemma StepPos(x: int, n: int)
    requires 0 <= x < 2 * n
    ensures x % n == if x < n then x else x - n
  {
  }

  lemma RotateUpdate(s: seq<Cell>, start: int, i: int, v: Cell)
    requires 0 <= start < |s| && 0 <= i < |s|
    ensures var pos := if start + i < |s| then start + i else start + i - |s|;
      Rotate(s, start)[i] == s[pos] && Rotate(s[pos := v], start) == Rotate(s, start)[i := v]
  {
  }

  lemma RotatePop(s: seq<Cell>, start: int)
    requires 0 <= start < |s|
    ensures var start' := if start + 1 == |s| then 0 else start + 1;
      Rotate(s[start := Empty], start') == Rotate(s, start)[1..] + [Empty]
  {
  }

  // ---------- message mode ----------

  /** Nothing lies beyond the last position received, and one slot of the ring always stays empty. */
  predicate Bounded(b: Buf) {
    b.acked + b.maxPos < |b.cells| && b.cells[|b.cells| - 1].Empty?
  }

  predicate Unread(c: Cell) {
    c.Held? && c.flag == 1
  }

  /** The first slot is given up and the read point moves past it. */
  function Drop(b: Buf): Buf
    requires b.acked > 0 && |b.cells| > 0
  {
    b.(cells := b.cells[1..] + [Empty], acked := b.acked - 1)
  }

  /** From slot i on the packets are unread up to the end of a message or of the acknowledged part. */
  predicate WholeAhead(b: Buf, i: nat)
    requires i <= b.acked <= |b.cells|
    decreases b.acked - i
  {
    i == b.acked || (Unread(b.cells[i]) && (IsLast(b.cells[i].chunk.header) || WholeAhead(b, i + 1)))
  }

  predicate GoodStart(b: Buf)
    requires 0 < b.acked <= |b.cells|
  {
    Unread(b.cells[0]) && IsFirst(b.cells[0].chunk.header) && WholeAhead(b, 0)
  }

  /** Slots are given up until a message that can still become readable is at the read point. */
  function SkipBad(b: Buf): (r: Buf)
    requires b.acked <= |b.cells|
    ensures r.acked <= b.acked && |r.cells| == |b.cells| && r.maxPos == b.maxPos && r.notch == b.notch
    ensures |b.cells| > 0 && b.cells[|b.cells| - 1].Empty? ==> r.cells[|r.cells| - 1].Empty?
    decreases b.acked
  {
    if b.acked == 0 || GoodStart(b) then b else SkipBad(Drop(b))
  }

  datatype Found = NotFound | Found(p: nat, q: nat)

  /** The head of the message being looked at, once slot i has been looked at; -1 for none. */
  function HeadAfter(c: Cell, i: nat, p: int): int {
    if !Unread(c) then -1 else if IsFirst(c.chunk.header) then i else p
  }

  /** The first message from slot i on, p being the head of one begun before: it may be read when it ends in the
      acknowledged part, or when it need not keep its order. */
  function FindMsg(b: Buf, i: nat, p: int): (r: Found)
    requires Bounded(b) && i <= b.acked + b.maxPos + 1 && -1 <= p < i
    ensures r.Found? ==> r.p <= r.q <= b.acked + b.maxPos && i <= r.q
    decreases b.acked + b.maxPos + 1 - i
  {
    if i > b.acked + b.maxPos then NotFound
    else
      var c := b.cells[i];
      var head := HeadAfter(c, i, p);
      if head != -1 && IsLast(c.chunk.header) && (i < b.acked || !OrderFlag(c.chunk.header)) then Found(head, i)
      else FindMsg(b, i + 1, head)
  }

  /** The head of the message begun last, when all slots from i on have been looked at; -1 for none. */
  function LastHead(b: Buf, i: nat, p: int): (r: int)
    requires Bounded(b) && i <= b.acked + b.maxPos + 1 && -1 <= p < i
    ensures -1 <= r <= b.acked + b.maxPos
    decreases b.acked + b.maxPos + 1 - i
  {
    if i > b.acked + b.maxPos then p else LastHead(b, i + 1, HeadAfter(b.cells[i], i, p))
  }

  /** When nothing is found, the first slot is still the head of the message looked at, and the search has gone up to
      the slot in front of the one that stays empty. */
  predicate FillsTheRing(b: Buf)
    requires Bounded(b)
  {
    LastHead(b, 0, -1) == 0 && b.acked + b.maxPos == |b.cells| - 2
  }

  /** The search then succeeds without a message, unless there is nothing to search. */
  predicate EmptySuccess(b: Buf)
    requires Bounded(b)
  {
    (b.acked > 0 || b.maxPos > 0) && ScanMsg(b).1.NotFound? && FillsTheRing(ScanMsg(b).0)
  }

  /** A search that goes as far as the empty slot ends without a head. */
  lemma EndsOutside(b: Buf)
    requires Bounded(b) && b.acked + b.maxPos == |b.cells| - 1
    ensures LastHead(b, 0, -1) == -1
  {
    EndsOutsideFrom(b, 0, -1);
  }

  lemma {:induction false} EndsOutsideFrom(b: Buf, i: nat, p: int)
    requires Bounded(b) && b.acked + b.maxPos == |b.cells| - 1 && i <= b.acked + b.maxPos && -1 <= p < i
    ensures LastHead(b, i, p) == -1
    decreases |b.cells| - i
  {
    if i < b.acked + b.maxPos {
      EndsOutsideFrom(b, i + 1, HeadAfter(b.cells[i], i, p));
    }
  }

  /** It happens: of a message too large for three slots the first packet is acknowledged and the second is not. */
  lemma EmptySuccessHappens()
    ensures var first, middle := MakeHeader(1, true, true, false), MakeHeader(1, true, false, false);
      var b := Buf([Held(Chunk(first, [0]), 1), Held(Chunk(middle, [0]), 1), Empty], 1, 0, 0);
      Bounded(b) && EmptySuccess(b) && ReadMsg(b, 9) == (b, [])
  {
    HeaderRoundTrip(1, true, true, false);
    HeaderRoundTrip(1, true, false, false);
    hide MakeHeader, IsFirst, IsLast, OrderFlag, MsgSeq, Boundary;
    var first, middle := MakeHeader(1, true, true, false), MakeHeader(1, true, false, false);
    var b := Buf([Held(Chunk(first, [0]), 1), Held(Chunk(middle, [0]), 1), Empty], 1, 0, 0);
    assert WholeAhead(b, 1);
    assert SkipBad(b) == b;
    assert FindMsg(b, 2, 0) == NotFound && LastHead(b, 2, 0) == 0;
    assert FindMsg(b, 1, 0) == NotFound && LastHead(b, 1, 0) == 0;
  }

  /** It does not happen any more once the whole buffer is acknowledged: the last slot looked at is the empty one. */
  lemma EmptySuccessEnds(b: Buf)
    requires Bounded(b) && b.acked == |b.cells| - 1
    ensures !FillsTheRing(b)
  {
  }

  /** All packets of a message found are there and unread. */
  lemma {:induction false} FoundUnread(b: Buf, i: nat, p: int)
    requires Bounded(b) && i <= b.acked + b.maxPos + 1 && -1 <= p < i
    requires p != -1 ==> forall k | p <= k < i :: Unread(b.cells[k])
    ensures var r := FindMsg(b, i, p); r.Found? ==> forall k | r.p <= k <= r.q :: Unread(b.cells[k])
    decreases b.acked + b.maxPos + 1 - i
  {
    hide IsFirst, IsLast, OrderFlag;
    if i <= b.acked + b.maxPos {
      FoundUnread(b, i + 1, HeadAfter(b.cells[i], i, p));
    }
  }

  /** Slots p to q hold one unread message, which may be read: it is acknowledged or need not keep its order. */
  ghost predicate Ready(b: Buf, p: int, q: int)
    requires Bounded(b)
  {
    && 0 <= p <= q <= b.acked + b.maxPos
    && (forall k | p <= k <= q :: Unread(b.cells[k]))
    && IsFirst(b.cells[p].chunk.header) && (forall k | p < k <= q :: !IsFirst(b.cells[k].chunk.header))
    && IsLast(b.cells[q].chunk.header) && (q < b.acked || !OrderFlag(b.cells[q].chunk.header))
  }

  /** p is where the message begins that slot i would continue; -1 if there is none. */
  ghost predicate IsHead(b: Buf, i: nat, p: int)
    requires Bounded(b) && i <= b.acked + b.maxPos + 1
  {
    && -1 <= p < i && (forall k | 0 <= k < i && k >= p && p != -1 :: Unread(b.cells[k]))
    && (p != -1 ==> IsFirst(b.cells[p].chunk.header))
    && (forall k | p < k < i && Unread(b.cells[k]) && IsFirst(b.cells[k].chunk.header) :: Broken(b, k, i))
  }

  ghost predicate Broken(b: Buf, lo: int, hi: int)
    requires Bounded(b) && 0 <= lo <= hi <= b.acked + b.maxPos + 1
  {
    exists k :: lo <= k < hi && !Unread(b.cells[k])
  }

  lemma HeadStep(b: Buf, i: nat, p: int)
    requires Bounded(b) && i <= b.acked + b.maxPos && IsHead(b, i, p)
    ensures IsHead(b, i + 1, HeadAfter(b.cells[i], i, p))
  {
    hide IsFirst;
    var head := HeadAfter(b.cells[i], i, p);
    forall k | head < k < i + 1 && Unread(b.cells[k]) && IsFirst(b.cells[k].chunk.header)
      ensures Broken(b, k, i + 1)
    {
      if Unread(b.cells[i]) {
        assert Broken(b, k, i);
        var m :| k <= m < i && !Unread(b.cells[m]);
        assert k <= m < i + 1;
      } else {
        assert k <= i < i + 1 && !Unread(b.cells[i]);
      }
    }
  }

  ghost predicate Completes(b: Buf, i: nat, head: int)
    requires Bounded(b) && i <= b.acked + b.maxPos
  {
    && head != -1 && b.cells[i].Held? && IsLast(b.cells[i].chunk.header)
    && (i < b.acked || !OrderFlag(b.cells[i].chunk.header))
  }

  /** A message that ends in slot i begins at the head. */
  lemma EndsAt(b: Buf, i: nat, head: int, p: int)
    requires Bounded(b) && i <= b.acked + b.maxPos && IsHead(b, i + 1, head)
    ensures Ready(b, p, i) <==> p == head && Completes(b, i, head)
  {
    hide IsFirst, IsLast, OrderFlag;
  }

  ghost predicate NoneEnds(b: Buf, lo: int, hi: int)
    requires Bounded(b)
  {
    forall p, q | lo <= q < hi :: !Ready(b, p, q)
  }

  /** The search finds the message that ends first, and nothing if and only if there is none. */
  lemma {:induction false} FindExact(b: Buf, i: nat, p: int)
    requires Bounded(b) && i <= b.acked + b.maxPos + 1 && IsHead(b, i, p)
    ensures match FindMsg(b, i, p)
      case NotFound => NoneEnds(b, i, b.acked + b.maxPos + 1)
      case Found(u, v) => i <= v && Ready(b, u, v) && NoneEnds(b, i, v)
    decreases b.acked + b.maxPos + 1 - i
  {
    if i <= b.acked + b.maxPos {
      var head := HeadAfter(b.cells[i], i, p);
      HeadStep(b, i, p);
      forall u
        ensures Ready(b, u, i) <==> u == head && Completes(b, i, head)
      {
        EndsAt(b, i, head, u);
      }
      hide Ready, IsHead, IsFirst, IsLast, OrderFlag;
      FindExact(b, i + 1, head);
    }
  }

  ghost predicate ReadyFirst(b: Buf, p: int, q: int)
    requires Bounded(b)
  {
    Ready(b, p, q) && NoneEnds(b, 0, q)
  }

  /** From the first slot on: the message found is the one that ends first, and only one ends there. */
  lemma {:induction false} FindsFirst(b: Buf)
    requires Bounded(b)
    ensures FindMsg(b, 0, -1).Found? <==> exists p, q :: Ready(b, p, q)
    ensures var r := FindMsg(b, 0, -1); r.Found? ==> ReadyFirst(b, r.p, r.q)
    ensures forall p, q, o | Ready(b, p, q) && Ready(b, o, q) :: p == o
  {
    FindExact(b, 0, -1);
    forall p, q, o | Ready(b, p, q) && Ready(b, o, q)
      ensures p == o
    {
      OneStart(b, p, q, o);
    }
  }

  lemma OneStart(b: Buf, p: int, q: int, o: int)
    requires Bounded(b) && Ready(b, p, q) && Ready(b, o, q)
    ensures p == o
  {
    hide IsFirst, IsLast, OrderFlag, Unread;
  }

  // ---------- what is skipped ----------

  /** Slots i to j are unread, and j ends a message or is the last acknowledged one. */
  ghost predicate UnreadUpTo(b: Buf, i: int, j: int)
    requires b.acked <= |b.cells|
  {
    && 0 <= i <= j <= b.acked && (forall k | i <= k < j :: Unread(b.cells[k]))
    && (j == b.acked || (Unread(b.cells[j]) && IsLast(b.cells[j].chunk.header)))
  }

  lemma {:induction false} AheadExact(b: Buf, i: nat)
    requires i <= b.acked <= |b.cells|
    ensures WholeAhead(b, i) <==> exists j :: UnreadUpTo(b, i, j)
    decreases b.acked - i
  {
    hide IsLast;
    if i == b.acked || (Unread(b.cells[i]) && IsLast(b.cells[i].chunk.header)) {
      assert UnreadUpTo(b, i, i);
    } else {
      AheadExact(b, i + 1);
      if j :| UnreadUpTo(b, i, j) { assert UnreadUpTo(b, i + 1, j); }
      if Unread(b.cells[i]) {
        var n := i + 1;
        if j :| UnreadUpTo(b, n, j) { assert UnreadUpTo(b, i, j); }
      }
    }
  }

  /** In slot i begins a message that is unread as far as it is acknowledged. */
  ghost predicate BeginsAt(b: Buf, i: int)
    requires b.acked <= |b.cells|
  {
    0 <= i < b.acked && Unread(b.cells[i]) && IsFirst(b.cells[i].chunk.header) && exists j :: UnreadUpTo(b, i, j)
  }

  lemma UpToLater(b: Buf, i: int, j: int)
    requires 0 < b.acked <= |b.cells| && 0 <= i
    ensures UnreadUpTo(Drop(b), i, j) <==> UnreadUpTo(b, i + 1, j + 1)
  {
    hide IsLast, Unread;
    assert forall k | 0 <= k < |b.cells| - 1 :: Drop(b).cells[k] == b.cells[k + 1];
    if UnreadUpTo(Drop(b), i, j) {
      forall k | i + 1 <= k < j + 1
        ensures Unread(b.cells[k])
      {
        assert Unread(Drop(b).cells[k - 1]);
      }
    }
  }

  lemma BeginsLater(b: Buf, i: nat)
    requires 0 < b.acked <= |b.cells|
    ensures BeginsAt(Drop(b), i) <==> BeginsAt(b, i + 1)
  {
    var n := i + 1;
    if j :| UnreadUpTo(b, n, j) { UpToLater(b, i, j - 1); }
    if j :| UnreadUpTo(Drop(b), i, j) { UpToLater(b, i, j); }
    hide IsFirst, IsLast, Unread, UnreadUpTo;
  }

  /** now is what was is when exactly the slots before the first one in which such a message begins are given up. */
  ghost predicate Skips(was: Buf, now: Buf)
    requires was.acked <= |was.cells|
  {
    var k := was.acked - now.acked;
    && 0 <= k <= was.acked && now == was.(cells := was.cells[k..] + Blank(k), acked := was.acked - k)
    && (k == was.acked || BeginsAt(was, k)) && forall i | 0 <= i < k :: !BeginsAt(was, i)
  }

  lemma SkipsMore(was: Buf, now: Buf)
    requires 0 < was.acked <= |was.cells| && !BeginsAt(was, 0) && Skips(Drop(was), now)
    ensures Skips(was, now)
  {
    hide BeginsAt;
    var k := was.acked - now.acked;
    assert Drop(was).cells[k - 1..] + Blank(k - 1) == was.cells[k..] + Blank(k);
    forall i | 0 <= i < k
      ensures !BeginsAt(was, i)
    {
      if i > 0 { BeginsLater(was, i - 1); }
    }
    BeginsLater(was, k - 1);
  }

  lemma {:induction false} SkipExact(b: Buf)
    requires b.acked <= |b.cells|
    ensures Skips(b, SkipBad(b))
    decreases b.acked
  {
    if b.acked > 0 {
      GoodBegins(b);
      if GoodStart(b) {
        NothingSkipped(b);
      } else {
        SkipExact(Drop(b));
        SkipsMore(b, SkipBad(b));
      }
    } else {
      NothingSkipped(b);
    }
    hide Skips, GoodStart, BeginsAt;
  }

  lemma GoodBegins(b: Buf)
    requires 0 < b.acked <= |b.cells|
    ensures GoodStart(b) <==> BeginsAt(b, 0)
  {
    AheadExact(b, 0);
    hide WholeAhead, IsFirst, IsLast;
  }

  lemma NothingSkipped(b: Buf)
    requires b.acked <= |b.cells| && (b.acked == 0 || BeginsAt(b, 0))
    ensures Skips(b, b)
  {
    hide BeginsAt;
    assert b.cells[0..] + Blank(0) == b.cells;
  }

  function Marked(cells: seq<Cell>, p: nat, q: nat, c: Cell -> Cell): (r: seq<Cell>)
    requires p <= q <= |cells|
    ensures |r| == |cells|
  {
    seq(|cells|, i requires 0 <= i < |cells| => if p <= i < q then c(cells[i]) else cells[i])
  }

  lemma NothingMarked(cells: seq<Cell>, lo: nat, c: Cell -> Cell, len: nat)
    requires lo <= |cells|
    ensures Marked(cells, lo, lo, c) == cells && Cut(Payload(cells[lo..lo]), len) == []
  {
    assert cells[lo..lo] == [];
  }

  lemma MarkedStep(cells: seq<Cell>, lo: nat, k: nat, c: Cell -> Cell)
    requires lo <= k < |cells|
    ensures Marked(cells, lo, k + 1, c) == Marked(cells, lo, k, c)[k := c(cells[k])]
    ensures Marked(cells, lo, k, c)[k] == cells[k]
  {
  }

  lemma PayloadStep(cells: seq<Cell>, lo: nat, k: nat, len: nat)
    requires lo <= k < |cells| && cells[k].Held?
    ensures var had, bytes := Cut(Payload(cells[lo..k]), len), cells[k].chunk.bytes;
      && |had| <= len
      && Cut(Payload(cells[lo..k + 1]), len) == had + bytes[..if |bytes| < len - |had| then |bytes| else len - |had|]
  {
    assert cells[lo..k + 1][..k - lo] == cells[lo..k];
    assert cells[lo..k + 1][k - lo] == cells[k];
  }

  function ReadAlready(c: Cell): Cell {
    if c.Held? then Held(c.chunk, 2) else c
  }

  function Freed(c: Cell): Cell {
    Empty
  }

  /** Slots p to q are read: freed together with everything before when q is acknowledged, else marked as read. */
  function TakeMsg(b: Buf, p: nat, q: nat): Buf
    requires p <= q < |b.cells|
  {
    if q < b.acked then
      var cells := Marked(b.cells, p, q + 1, Freed);
      b.(cells := cells[q + 1..] + cells[..q + 1], acked := b.acked - (q + 1))
    else
      b.(cells := Marked(b.cells, p, q + 1, ReadAlready))
  }

  /** The message a read in message mode finds, and the buffer it finds it in. */
  function ScanMsg(b: Buf): (r: (Buf, Found))
    requires Bounded(b)
    ensures Bounded(r.0)
  {
    if b.acked == 0 && b.maxPos == 0 then (b, NotFound)
    else
      var b1 := SkipBad(b);
      (b1, FindMsg(b1, 0, -1))
  }

  function Payload(cells: seq<Cell>): seq<byte> {
    if cells == [] then []
    else
      var last := cells[|cells| - 1];
      Payload(cells[..|cells| - 1]) + if last.Held? then last.chunk.bytes else []
  }

  function Cut(bytes: seq<byte>, len: nat): seq<byte> {
    if |bytes| <= len then bytes else bytes[..len]
  }

  /** Reading one message, cut to the caller's length. */
  function ReadMsg(b: Buf, len: nat): (Buf, seq<byte>)
    requires Bounded(b)
  {
    match ScanMsg(b)
    case (b1, NotFound) => (b1, [])
    case (b1, Found(p, q)) => (TakeMsg(b1, p, q), Cut(Payload(b1.cells[p..q + 1]), len))
  }

  lemma ScanUnread(b: Buf)
    requires Bounded(b)
    ensures var (b1, r) := ScanMsg(b);
      r.Found? ==> r.p <= r.q < |b1.cells| - 1 && forall k | r.p <= k <= r.q :: b1.cells[k].Held?
  {
    hide SkipBad, FindMsg;
    var (b1, r) := ScanMsg(b);
    if r.Found? {
      FoundUnread(b1, 0, -1);
    }
  }

  /** Slots lo up to hi taken out of the buffer, or only marked as read. */
  function TakenRange(b: Buf, lo: nat, hi: nat, marked: bool, len: nat): (Buf, seq<byte>)
    requires lo <= hi <= |b.cells| && (marked || hi <= b.acked)
  {
    var cells := Marked(b.cells, lo, hi, if marked then ReadAlready else Freed);
    (if marked then b.(cells := cells) else b.(cells := cells[hi..] + cells[..hi], acked := b.acked - hi),
     Cut(Payload(b.cells[lo..hi]), len))
  }

  /** Reading a message, case by case. */
  lemma ReadMsgIs(b: Buf, len: nat)
    requires Bounded(b)
    ensures var (b1, found) := ScanMsg(b);
      match found
      case NotFound => ReadMsg(b, len) == (b1, [])
      case Found(p, q) => ReadMsg(b, len) == TakenRange(b1, p, q + 1, q >= b1.acked, len)
  {
    hide FindMsg, SkipBad, Payload, Marked, Cut;
  }

  /** What a scan finds, as a range of slots; the range is empty when only part of a message could be read. */
  ghost predicate IsRange(r: (Buf, Found), found: bool, lo: nat, hi: nat, passack: bool) {
    match r.1
    case Found(i, j) => found && lo == i && hi == j + 1 && (passack <==> j >= r.0.acked)
    case NotFound => found ==> passack && lo == hi
  }

  lemma ReadByRange(b: Buf, len: nat, found: bool, lo: nat, hi: nat, passack: bool)
    requires Bounded(b) && IsRange(ScanMsg(b), found, lo, hi, passack) && lo <= hi <= |ScanMsg(b).0.cells|
    ensures var b1 := ScanMsg(b).0;
      if found then
        && (forall i | lo <= i < hi :: b1.cells[i].Held?) && (!passack ==> hi <= b1.acked)
        && ReadMsg(b, len) == TakenRange(b1, lo, hi, passack, len)
      else ReadMsg(b, len) == (b1, [])
  {
    ReadMsgIs(b, len);
    ScanUnread(b);
    TakenNothing(ScanMsg(b).0, lo, len);
    hide ScanMsg, ReadMsg, TakenRange;
  }

  lemma TakenNothing(b: Buf, lo: nat, len: nat)
    requires lo <= |b.cells|
    ensures TakenRange(b, lo, lo, true, len) == (b, [])
  {
    NothingMarked(b.cells, lo, ReadAlready, len);
    hide Marked, Payload, Cut;
  }

  lemma RotateFurther(s: seq<Cell>, start: int, k: int)
    requires 0 <= start < |s| && 0 <= k <= |s|
    ensures var at := if start + k < |s| then start + k else start + k - |s|;
      k < |s| ==> Rotate(s, at) == Rotate(s, start)[k..] + Rotate(s, start)[..k]
  {
  }

  class RcvBuffer {
    const size: int
    const unit: array<Cell>
    var startPos: int
    var lastAckPos: int
    var maxPos: int
    var notch: int

    ghost predicate Valid()
      reads this, unit
    {
      && 0 < size == unit.Length && 0 <= startPos < size && 0 <= lastAckPos < size && 0 <= maxPos && 0 <= notch
    }

    ghost function ViewFrom(p: int): (b: Buf)
      requires Valid() && 0 <= p < size
      reads this, unit
    {
      Buf(Rotate(unit[..], p), if lastAckPos >= p then lastAckPos - p else size + lastAckPos - p, maxPos, notch)
    }

    /** The abstract value of the buffer. */
    ghost function View(): (b: Buf)
      requires Valid()
      reads this, unit
    {
      ViewFrom(startPos)
    }

    constructor (size: int)
      requires size > 0
      ensures Valid() && fresh(unit) && this.size == size
      ensures View() == Buf(seq(size, _ => Empty), 0, 0, 0)
    {
      this.size := size;
      unit := new Cell[size](_ => Empty);
      startPos, lastAckPos, maxPos, notch := 0, 0, 0, 0;
    }

    function GetRcvDataSize(): (r: int)
      requires Valid()
      reads this, unit
      ensures r == View().acked
    {
      if lastAckPos >= startPos then lastAckPos - startPos else size + lastAckPos - startPos
    }

    function GetAvailBufSize(): (r: int)
      requires Valid()
      reads this, unit
      ensures r == AvailSize(View())
    {
      size - GetRcvDataSize() - 1
    }

    /** Returns 0, or -1 when the packet is there already. */
    method Add(chunk: Chunk, offset: int) returns (r: int)
      requires Valid() && 0 <= offset && View().acked + offset < size
      modifies this`maxPos, unit
      ensures Valid() && (r == 0 || r == -1)
      ensures (View(), r == 0) == AddData(old(View()), chunk, offset)
    {
      hide Rotate;
      StepPos(lastAckPos + offset, size);
      var pos := (lastAckPos + offset) % size;
      RotateUpdate(unit[..], startPos, View().acked + offset, Held(chunk, 1));
      if offset > maxPos {
        maxPos := offset;
      }
      if unit[pos].Held? {
        return -1;
      }
      unit[pos] := Held(chunk, 1);
      r := 0;
    }

    method Ack(len: int)
      requires Valid() && 0 <= len && View().acked + len < size
      modifies this`lastAckPos, this`maxPos
      ensures Valid() && View() == AckData(old(View()), len)
    {
      StepPos(lastAckPos + len, size);
      lastAckPos := (lastAckPos + len) % size;
      maxPos := maxPos - len;
      if maxPos < 0 {
        maxPos := 0;
      }
    }

    /** Reads up to len bytes of acknowledged data. */
    method ReadBuffer(len: int) returns (data: seq<byte>)
      requires Valid() && 0 <= len && Readable(View())
      modifies this, unit
      ensures Valid() && View() == Read(old(View()), len).0 && data == Read(old(View()), len).1
    {
      hide Read, Readable, Rotate;
      var p := startPos;
      var rs := len;
      data := [];
      while p != lastAckPos && rs > 0
        invariant Valid() && 0 <= p < size && 0 <= rs && Readable(ViewFrom(p))
        invariant Read(old(View()), len).0 == Read(ViewFrom(p), rs).0
        invariant Read(old(View()), len).1 == data + Read(ViewFrom(p), rs).1
        decreases ViewFrom(p).acked, rs
      {
        var piece;
        ReadStep(ViewFrom(p), rs);
        p, rs, piece := TakeUnit(p, rs);
        ReadStep(ViewFrom(p), rs);
        data := data + piece;
      }
      ReadStep(ViewFrom(p), rs);
      startPos := p;
    }

    /** Reads from the packet at position p, and frees its slot when nothing of it is left. */
    method TakeUnit(p: int, rs: int) returns (p': int, rs': int, piece: seq<byte>)
      requires Valid() && 0 <= p < size && p != lastAckPos && 0 < rs && Readable(ViewFrom(p))
      modifies this`notch, unit
      ensures Valid() && 0 <= p' < size
      ensures var b := old(ViewFrom(p));
        var bytes := b.cells[0].chunk.bytes;
        var remain := |bytes| - b.notch;
        if rs >= remain then ViewFrom(p') == Pop(b) && piece == bytes[b.notch..] && rs' == rs - remain
        else ViewFrom(p') == b.(notch := b.notch + rs) && piece == bytes[b.notch..b.notch + rs] && rs' == 0
    {
      RotatePop(unit[..], p);
      assert ViewFrom(p).cells[0] == unit[p];
      p' := p;
      var bytes := unit[p].chunk.bytes;
      var unitsize := |bytes| - notch;
      if unitsize > rs {
        unitsize := rs;
      }
      piece := bytes[notch..notch + unitsize];
      if rs > unitsize || rs == |bytes| - notch {
        unit[p] := Empty;
        p' := p' + 1;
        if p' == size {
          p' := 0;
        }
        notch := 0;
      } else {
        notch := notch + rs;
      }
      rs' := rs - unitsize;
    }

    // ---------- message mode ----------

    /** The array position i places after the read point. */
    ghost function PosOf(i: nat): int
      requires Valid() && i <= size
      reads this, unit
    {
      if startPos + i < size then startPos + i else startPos + i - size
    }

    function NextPos(q: int): (r: int)
      requires 0 <= q < size
      ensures r == if q + 1 == size then 0 else q + 1
    {
      (q + 1) % size
    }

    /** The first slot is given up. */
    method DropFirst()
      requires Valid() && startPos != lastAckPos
      modifies this`startPos, unit
      ensures Valid() && View() == Drop(old(View()))
    {
      RotatePop(unit[..], startPos);
      if unit[startPos].Held? {
        unit[startPos] := Empty;
      } else {
        assert unit[..][startPos := Empty] == unit[..];
      }
      startPos := startPos + 1;
      if startPos == size {
        startPos := 0;
      }
    }

    /** The look ahead for a whole message. */
    method LookAhead() returns (good: bool)
      requires Valid() && startPos != lastAckPos
      ensures good == WholeAhead(View(), 0)
    {
      good := true;
      var i := startPos;
      ghost var k := 0;
      while i != lastAckPos
        invariant 0 <= k <= View().acked && i == PosOf(k) && 0 <= i < size
        invariant good && WholeAhead(View(), 0) == WholeAhead(View(), k)
        decreases View().acked - k
      {
        assert View().cells[k] == unit[i];
        if !(unit[i].Held? && unit[i].flag == 1) {
          good := false;
          break;
        }
        if IsLast(unit[i].chunk.header) {
          break;
        }
        i := i + 1;
        if i == size {
          i := 0;
        }
        k := k + 1;
      }
    }

    method SkipBadMsgs()
      requires Valid()
      modifies this`startPos, unit
      ensures Valid() && View() == SkipBad(old(View()))
    {
      hide WholeAhead, IsFirst, IsLast, Rotate;
      while startPos != lastAckPos
        invariant Valid() && SkipBad(old(View())) == SkipBad(View())
        decreases View().acked
      {
        assert View().cells[0] == unit[startPos];
        if unit[startPos].Held? && unit[startPos].flag == 1 && IsFirst(unit[startPos].chunk.header) {
          var good := LookAhead();
          if good {
            break;
          }
        }
        DropFirst();
      }
    }

    /** Looks for the first readable message in slots p to q; passack tells that it is not fully acknowledged. */
    method Scan() returns (found: bool, p: int, q: int, passack: bool)
      requires Valid() && Bounded(View())
      modifies this`startPos, unit
      ensures Valid() && View() == ScanMsg(old(View())).0
      ensures match ScanMsg(old(View())).1
        case Found(i, j) => found && p == PosOf(i) && q == PosOf(j) && (passack <==> j >= View().acked)
        case NotFound => found == EmptySuccess(old(View())) && (found ==> passack && 0 <= q < size && p == NextPos(q))
    {
      found, p, q, passack := false, -1, startPos, false;
      if startPos == lastAckPos && maxPos <= 0 {
        return;
      }
      hide ScanMsg, NextPos;
      found, p, q, passack := SkipAndFind();
      if !found {
        HeadMeets(p, q);
        if p != -1 && NextPos(q) == p {
          found := true;
        }
      }
    }

    /** p and q are where a search that finds nothing ends. */
    ghost predicate AtHead(p: int, q: int)
      requires Valid() && Bounded(View())
      reads this, unit
    {
      var b := View(); var head := LastHead(b, 0, -1);
      p == (if head == -1 then -1 else PosOf(head)) && q == PosOf(b.acked + b.maxPos + 1)
    }

    /** The position after the last one searched is the head's exactly when the search went round the ring. */
    lemma HeadMeets(p: int, q: int)
      requires Valid() && Bounded(View()) && AtHead(p, q) && 0 <= q < size
      ensures p != -1 && NextPos(q) == p <==> FillsTheRing(View())
    {
      if View().acked + View().maxPos == size - 1 {
        EndsOutside(View());
      }
      hide LastHead;
    }

    method SkipAndFind() returns (found: bool, p: int, q: int, passack: bool)
      requires Valid() && Bounded(View()) && (startPos != lastAckPos || maxPos > 0)
      modifies this`startPos, unit
      ensures Valid() && View() == ScanMsg(old(View())).0
      ensures match ScanMsg(old(View())).1
        case Found(i, j) => found && p == PosOf(i) && q == PosOf(j) && (passack <==> j >= View().acked)
        case NotFound => !found && passack && 0 <= q < size && AtHead(p, q)
    {
      hide FindMsg, SkipBad, Rotate, LastHead;
      SkipBadMsgs();
      found, p, q, passack := FindFirst();
    }

    method FindFirst() returns (found: bool, p: int, q: int, passack: bool)
      requires Valid() && Bounded(View())
      ensures match FindMsg(View(), 0, -1)
        case Found(i, j) => found && p == PosOf(i) && q == PosOf(j) && (passack <==> j >= View().acked)
        case NotFound => !found && passack && 0 <= q < size && AtHead(p, q)
      ensures found <==> exists i, j :: Ready(View(), i, j)
      ensures found ==> exists i: nat, j: nat :: ReadyFirst(View(), i, j) && p == PosOf(i) && q == PosOf(j)
    {
      FindsFirst(View());
      hide IsFirst, IsLast, OrderFlag, Rotate, Ready, NoneEnds, ReadyFirst;
      found, p, q, passack := false, -1, startPos, startPos == lastAckPos;
      var i, n := 0, maxPos + GetRcvDataSize();
      ghost var head := -1;
      while i <= n
        invariant 0 <= i <= n + 1 <= size && n == View().acked + View().maxPos && -1 <= head < i
        invariant q == PosOf(i) && 0 <= q < size && (passack <==> i >= View().acked)
        invariant !found && p == (if head == -1 then -1 else PosOf(head))
        invariant FindMsg(View(), 0, -1) == FindMsg(View(), i, head)
        invariant LastHead(View(), 0, -1) == LastHead(View(), i, head)
      {
        var c := unit[q];
        assert View().cells[i] == c;
        head := HeadAfter(c, i, head);
        if c.Held? && c.flag == 1 {
          if IsFirst(c.chunk.header) {
            p := q;
          }
          found := p != -1 && IsLast(c.chunk.header);
        } else {
          p := -1;
        }
        if found {
          if !passack || !OrderFlag(c.chunk.header) {
            break;
          }
          found := false;
        }
        q := q + 1;
        if q == size {
          q := 0;
        }
        if q == lastAckPos {
          passack := true;
        }
        i := i + 1;
      }
    }

    /** Copies the packets from position p up to position end, which are slots lo to hi, and frees or marks them. */
    method CopyUnits(from: int, end: int, len: int, passack: bool, ghost lo: nat, ghost hi: nat)
      returns (data: seq<byte>)
      requires Valid() && 0 <= len && lo <= hi < size && from == PosOf(lo) && end == PosOf(hi)
      requires forall i | lo <= i < hi :: View().cells[i].Held?
      modifies unit
      ensures Valid()
      ensures View() == old(View()).(cells := Marked(old(View()).cells, lo, hi, if passack then ReadAlready else Freed))
      ensures data == Cut(Payload(old(View()).cells[lo..hi]), len)
    {
      hide Rotate, Marked, Payload, Cut;
      ghost var b := View();
      ghost var c := if passack then ReadAlready else Freed;
      var p, rs := from, len;
      ghost var k := lo;
      data := [];
      NothingMarked(b.cells, lo, c, len);
      while p != end
        invariant Valid() && lo <= k <= hi && p == PosOf(k)
        invariant View() == b.(cells := Marked(b.cells, lo, k, c))
        invariant data == Cut(Payload(b.cells[lo..k]), len) && rs == len - |data|
        decreases hi - k
      {
        MarkedStep(b.cells, lo, k, c);
        PayloadStep(b.cells, lo, k, len);
        var unitsize := |UnitAt(p, k).chunk.bytes|;
        if rs >= 0 && unitsize > rs {
          unitsize := rs;
        }
        if unitsize > 0 {
          data := data + unit[p].chunk.bytes[..unitsize];
          rs := rs - unitsize;
        }
        p := MarkUnit(p, passack, k);
        k := k + 1;
      }
    }

    function UnitAt(p: int, ghost k: nat): (c: Cell)
      requires Valid() && k < size && p == PosOf(k)
      reads this, unit
      ensures c == View().cells[k] == unit[p]
    {
      unit[p]
    }

    /** One packet read: its slot is freed or marked. */
    method MarkUnit(p: int, passack: bool, ghost k: nat) returns (p': int)
      requires Valid() && k + 1 < size && p == PosOf(k) && unit[p].Held?
      modifies unit
      ensures Valid() && p' == PosOf(k + 1)
      ensures var c := if passack then ReadAlready else Freed;
        View() == old(View()).(cells := old(View()).cells[k := c(old(View()).cells[k])])
    {
      RotateUpdate(unit[..], startPos, k, if passack then ReadAlready(unit[p]) else Freed(unit[p]));
      hide Rotate;
      if !passack {
        unit[p] := Empty;
      } else {
        unit[p] := Held(unit[p].chunk, 2);
      }
      p' := p + 1;
      if p' == size {
        p' := 0;
      }
    }

    method MoveStart(end: int, ghost k: nat)
      requires Valid() && k < size && end == PosOf(k) && k <= View().acked
      modifies this`startPos
      ensures Valid()
      ensures var b := old(View()); View() == b.(cells := b.cells[k..] + b.cells[..k], acked := b.acked - k)
    {
      RotateFurther(unit[..], startPos, k);
      hide Rotate;
      startPos := end;
    }

    /** Scan, with the packets to read numbered from the read point. */
    method ScanRange() returns (found: bool, p: int, q: int, passack: bool, ghost lo: nat, ghost hi: nat)
      requires Valid() && Bounded(View())
      modifies this`startPos, unit
      ensures Valid() && View() == ScanMsg(old(View())).0
      ensures lo <= hi < size == |View().cells|
      ensures found ==> p == PosOf(lo) && 0 <= q < size && NextPos(q) == PosOf(hi)
      ensures IsRange(ScanMsg(old(View())), found, lo, hi, passack)
    {
      ScanUnread(View());
      hide ScanMsg, NextPos, Rotate;
      ghost var r := ScanMsg(View()).1;
      found, p, q, passack := Scan();
      lo, hi := 0, 0;
      if r.Found? {
        lo, hi := r.p, r.q + 1;
      } else if found {
        lo := if p >= startPos then p - startPos else p + size - startPos;
        hi := lo;
      }
    }

    /** ScanRange, with what is read then expressed as a range of slots. */
    method FindRange(ghost len: nat) returns (found: bool, p: int, q: int, passack: bool, ghost lo: nat, ghost hi: nat)
      requires Valid() && Bounded(View())
      modifies this`startPos, unit
      ensures Valid()
      ensures found ==> lo <= hi < size && p == PosOf(lo) && 0 <= q < size && NextPos(q) == PosOf(hi)
      ensures found ==> (forall i | lo <= i < hi :: View().cells[i].Held?) && (!passack ==> hi <= View().acked)
      ensures found ==> ReadMsg(old(View()), len) == TakenRange(View(), lo, hi, passack, len)
      ensures !found ==> ReadMsg(old(View()), len) == (View(), [])
    {
      hide *;
      ghost var b := View();
      found, p, q, passack, lo, hi := ScanRange();
      ReadByRange(b, len, found, lo, hi, passack);
    }

    /** Reads one message, cut to len bytes. */
    method ReadMessage(len: int) returns (data: seq<byte>)
      requires Valid() && Bounded(View()) && 0 <= len
      modifies this`startPos, unit
      ensures Valid() && (View(), data) == ReadMsg(old(View()), len)
    {
      hide ReadMsg, NextPos, Rotate, TakenRange, Bounded;
      ghost var lo, hi;
      var found, p, q, passack;
      found, p, q, passack, lo, hi := FindRange(len);
      if !found {
        return [];
      }
      data := TakeUnits(p, NextPos(q), len, passack, lo, hi);
    }

    /** Copies the packets, and moves the read point past them unless they are not all acknowledged. */
    method TakeUnits(p: int, end: int, len: int, passack: bool, ghost lo: nat, ghost hi: nat) returns (data: seq<byte>)
      requires Valid() && 0 <= len && lo <= hi < size && p == PosOf(lo) && end == PosOf(hi)
      requires forall i | lo <= i < hi :: View().cells[i].Held?
      requires !passack ==> hi <= View().acked
      modifies this`startPos, unit
      ensures Valid() && (View(), data) == TakenRange(old(View()), lo, hi, passack, len)
    {
      hide Marked, Payload, Cut, Rotate;
      data := CopyUnits(p, end, len, passack, lo, hi);
      if !passack {
        MoveStart(end, hi);
      }
    }
  }
}
