/** The send buffer: a growing ring of packet blocks linked through their next pointers. */
module SndBuffers {
  import opened Basics
  import opened Packets

  /** The queued packets, the index of the first one never sent, and the number of the next message. */
  datatype SBuf = SBuf(blocks: seq<Chunk>, cur: nat, nextMsgNo: bv32)

  /** A message cut into packets of at most mss bytes. */
  function Chop(data: seq<byte>, mss: int, msgNo: bv32, order: bool, first: bool): (r: seq<Chunk>)
    requires mss > 0
  {
    if data == [] then []
    else if |data| <= mss then [Chunk(MakeHeader(msgNo, order, first, true), data)]
    else [Chunk(MakeHeader(msgNo, order, first, false), data[..mss])] + Chop(data[mss..], mss, msgNo, order, false)
  }

  lemma ChopStep(data: seq<byte>, mss: int, msgNo: bv32, order: bool, first: bool)
    requires mss > 0 && data != []
    ensures var n := if |data| > mss then mss else |data|;
      Chop(data, mss, msgNo, order, first)
      == [Chunk(MakeHeader(msgNo, order, first, |data| <= mss), data[..n])]
         + Chop(data[n..], mss, msgNo, order, false)
  {
    hide MakeHeader;
    if |data| <= mss {
      assert data[..|data|] == data && data[|data|..] == [];
    }
  }

  /** No packet is empty, and every one but the last is full. */
  ghost predicate Full(r: seq<Chunk>, mss: int) {
    && (forall i | 0 <= i < |r| :: 0 < |r[i].bytes| <= mss)
    && (forall i | 0 <= i < |r| - 1 :: |r[i].bytes| == mss)
  }

  /** All packets carry the number and the order flag of the message, the first one alone the first flag, if it has any,
      and the last one alone the last. */
  ghost predicate Labelled(r: seq<Chunk>, msgNo: bv32, order: bool, first: bool) {
    forall i | 0 <= i < |r| :: r[i].header == MakeHeader(msgNo, order, first && i == 0, i == |r| - 1)
  }

  lemma OneMore(c: Chunk, rest: seq<Chunk>, mss: int, msgNo: bv32, order: bool, first: bool)
    requires rest != [] && Full(rest, mss) && Labelled(rest, msgNo, order, false)
    requires 0 < |c.bytes| == mss && c.header == MakeHeader(msgNo, order, first, false)
    ensures Full([c] + rest, mss) && Labelled([c] + rest, msgNo, order, first)
  {
    hide MakeHeader;
    var r := [c] + rest;
    forall i | 0 <= i < |r|
      ensures i > 0 ==> r[i] == rest[i - 1]
    {
    }
  }

  lemma {:induction false} ChopSizes(data: seq<byte>, mss: int, msgNo: bv32, order: bool, first: bool)
    requires mss > 0
    ensures Full(Chop(data, mss, msgNo, order, first), mss)
    ensures Labelled(Chop(data, mss, msgNo, order, first), msgNo, order, first)
    decreases |data|
  {
    hide MakeHeader;
    if |data| > mss {
      ChopSizes(data[mss..], mss, msgNo, order, false);
      ChopStep(data[mss..], mss, msgNo, order, false);
      OneMore(Chunk(MakeHeader(msgNo, order, first, false), data[..mss]), Chop(data[mss..], mss, msgNo, order, false),
              mss, msgNo, order, first);
    }
  }

  predicate IsMsgNo(n: bv32) {
    0 < n < MAX_MSG_NO
  }

  /** Message numbers run from 1 up and start over before the largest 29-bit value. */
  function NextMsgNo(n: bv32): (r: bv32)
    ensures IsMsgNo(n) ==> IsMsgNo(r)
  {
    if n + 1 == MAX_MSG_NO then 1 else n + 1
  }

  function AddBuffer(b: SBuf, data: seq<byte>, mss: int, order: bool): SBuf
    requires mss > 0
  {
    b.(blocks := b.blocks + Chop(data, mss, b.nextMsgNo, order, true), nextMsgNo := NextMsgNo(b.nextMsgNo))
  }

  function AckData(b: SBuf, offset: nat): SBuf
    requires offset <= |b.blocks| && offset <= b.cur
  {
    b.(blocks := b.blocks[offset..], cur := b.cur - offset)
  }

  /** Cutting up a message loses and reorders nothing. */
  lemma {:induction false} ChopFlatten(data: seq<byte>, mss: int, msgNo: bv32, order: bool, first: bool)
    requires mss > 0
    ensures Flatten(Chop(data, mss, msgNo, order, first)) == data
    decreases |data|
  {
    hide MakeHeader;
    assert Flatten([]) == [];
    if data != [] {
      var n := if |data| > mss then mss else |data|;
      var chunks := Chop(data, mss, msgNo, order, first);
      ChopStep(data, mss, msgNo, order, first);
      FlattenHead(chunks);
      ChopFlatten(data[n..], mss, msgNo, order, false);
      hide Flatten, Chop;
      assert chunks[1..] == Chop(data[n..], mss, msgNo, order, false);
      assert data == data[..n] + data[n..];
    }
  }

  /** Number of packets of a message. */
  function Pieces(len: int, mss: int): int
    requires mss > 0 && len >= 0
  {
    if len % mss != 0 then len / mss + 1 else len / mss
  }

  /** n packets of at most mss bytes are what len bytes need. */
  predicate ArePieces(n: int, len: int, mss: int) {
    (n - 1) * mss < len <= n * mss
  }

  lemma PiecesBounds(len: int, mss: int)
    requires mss > 0 && len >= 0
    ensures var n := Pieces(len, mss); n >= 0 && (n - 1) * mss < len <= n * mss
    ensures Pieces(len, mss) == 0 <==> len == 0
  {
    var q := len / mss;
    assert len == q * mss + len % mss;
    assert (q + 1) * mss == q * mss + mss;
    assert (q - 1) * mss == q * mss - mss;
  }

  lemma {:induction false} ChopCount(data: seq<byte>, mss: int, msgNo: bv32, order: bool, first: bool, n: int)
    requires mss > 0 && n >= 0 && (n - 1) * mss < |data| <= n * mss
    ensures |Chop(data, mss, msgNo, order, first)| == n
    decreases |data|
  {
    if |data| > mss {
      assert (n - 2) * mss == (n - 1) * mss - mss;
      assert (n - 1) * mss == n * mss - mss;
      Multiple(n - 1, mss);
      ChopCount(data[mss..], mss, msgNo, order, false, n - 1);
    } else if |data| > 0 {
      Multiple(n - 1, mss);
    } else {
      Multiple(n - 1, mss);
    }
  }

  /** The i-th of n packets. */
  function Piece(data: seq<byte>, mss: int, msgNo: bv32, i: int, n: int, order: bool): Chunk
    requires mss > 0 && 0 <= i * mss <= |data|
  {
    var pktlen := if |data| - i * mss > mss then mss else |data| - i * mss;
    Chunk(MakeHeader(msgNo, order, i == 0, i == n - 1), data[i * mss..i * mss + pktlen])
  }

  /** What is left of a message after i packets. */
  function Rest(data: seq<byte>, mss: int, i: int): seq<byte> {
    if 0 <= i * mss <= |data| then data[i * mss..] else []
  }

  /** The packet written next is the one the message is cut into next. */
  lemma PieceIsNext(data: seq<byte>, mss: int, msgNo: bv32, i: int, n: int, order: bool)
    requires mss > 0 && ArePieces(n, |data|, mss) && 0 <= i < n
    ensures 0 <= i * mss <= |data|
    ensures Chop(Rest(data, mss, i), mss, msgNo, order, i == 0)
      == [Piece(data, mss, msgNo, i, n, order)] + Chop(Rest(data, mss, i + 1), mss, msgNo, order, false)
  {
    LastPiece(|data|, mss, n, i);
    hide MakeHeader, Chop, ArePieces;
    PieceFrom(data, i * mss, mss, msgNo, order, i == 0, i == n - 1);
  }

  lemma PieceFrom(data: seq<byte>, at: int, mss: int, msgNo: bv32, order: bool, first: bool, last: bool)
    requires mss > 0 && 0 <= at < |data| && last == (|data| - at <= mss)
    ensures var len := if |data| - at > mss then mss else |data| - at;
      Chop(data[at..], mss, msgNo, order, first)
      == [Chunk(MakeHeader(msgNo, order, first, last), data[at..at + len])]
         + Chop(if at + mss <= |data| then data[at + mss..] else [], mss, msgNo, order, false)
  {
    var len := if |data| - at > mss then mss else |data| - at;
    ChopStep(data[at..], mss, msgNo, order, first);
    assert data[at..][..len] == data[at..at + len] && data[at..][len..] == data[at + len..];
  }

  /** Exactly the last piece is no longer than mss. */
  lemma LastPiece(len: int, mss: int, n: int, i: int)
    requires mss > 0 && (n - 1) * mss < len <= n * mss && 0 <= i < n
    ensures 0 <= i * mss < len && (len - i * mss <= mss <==> i == n - 1)
    ensures (i + 1) * mss == i * mss + mss
  {
    Multiple(n - 1 - i, mss);
    Multiple(i, mss);
    assert (n - 1) * mss == (n - 1 - i) * mss + i * mss;
  }

  lemma RestOfAll(data: seq<byte>, mss: int)
    ensures Rest(data, mss, 0) == data
  {
    assert 0 * mss == 0 && data[0..] == data;
  }

  lemma {:induction false} PieceAt(data: seq<byte>, mss: int, msgNo: bv32, i: nat, n: nat, order: bool)
    requires mss > 0 && ArePieces(n, |data|, mss) && i < n
    requires |Chop(data, mss, msgNo, order, true)| == n
    ensures 0 <= i * mss <= |data|
    ensures Chop(data, mss, msgNo, order, true)[i..] == Chop(Rest(data, mss, i), mss, msgNo, order, i == 0)
    ensures Piece(data, mss, msgNo, i, n, order) == Chop(data, mss, msgNo, order, true)[i]
  {
    hide MakeHeader, Piece, Chop, ArePieces, Rest;
    var all := Chop(data, mss, msgNo, order, true);
    if i > 0 {
      PieceAt(data, mss, msgNo, i - 1, n, order);
      PieceIsNext(data, mss, msgNo, i - 1, n, order);
      assert all[i..] == all[i - 1..][1..];
    } else {
      RestOfAll(data, mss);
    }
    PieceIsNext(data, mss, msgNo, i, n, order);
    assert all[i] == all[i..][0];
  }

  class Block {
    var data: seq<byte>
    var header: bv32
    var next: Block?

    constructor ()
      ensures next == null
    {
      data, header, next := [], 0, null;
    }
  }

  class SndBuffer {
    const mss: int
    const unitSize: int        // blocks added each time the ring grows
    var size: int              // blocks in the ring
    var count: int             // blocks in use
    var firstBlock: Block      // oldest block in use
    var currBlock: Block       // oldest block never sent
    var lastBlock: Block       // first free block
    var nextMsgNo: bv32

    ghost var ring: seq<Block> // all blocks, from firstBlock on
    ghost var cur: nat

    ghost function Blocks(): set<Block>
      reads this
    {
      set b | b in ring
    }

    static ghost predicate Circular(blocks: seq<Block>)
      reads blocks`next
    {
      && (forall i, j | 0 <= i < j < |blocks| :: blocks[i] != blocks[j])
      && (forall i {:trigger blocks[i].next} | 0 <= i < |blocks| - 1 :: blocks[i].next == blocks[i + 1])
      && (blocks != [] ==> blocks[|blocks| - 1].next == blocks[0])
    }

    ghost predicate Valid()
      reads this, ring
    {
      && mss > 0 && unitSize > 0 && |ring| == size && Circular(ring)
      && 0 <= cur <= count < size
      && firstBlock == ring[0] && currBlock == ring[cur] && lastBlock == ring[count]
      && IsMsgNo(nextMsgNo)
    }

    static ghost function Contents(blocks: seq<Block>): (r: seq<Chunk>)
      reads blocks
      ensures |r| == |blocks|
      ensures forall i | 0 <= i < |r| :: r[i] == Chunk(blocks[i].header, blocks[i].data)
    {
      seq(|blocks|, i requires 0 <= i < |blocks| reads blocks => Chunk(blocks[i].header, blocks[i].data))
    }

    /** The abstract value of the buffer. */
    ghost function View(): SBuf
      requires Valid()
      reads this, ring
    {
      SBuf(Contents(ring[..count]), cur, nextMsgNo)
    }

    constructor (size: int, mss: int)
      requires size > 0 && mss > 0
      ensures Valid() && View() == SBuf([], 0, 1) && this.mss == mss
      ensures fresh(ring)
    {
      this.mss := mss;
      this.unitSize := size;
      this.size := size;
      count := 0;
      nextMsgNo := 1;
      var b := new Block();
      firstBlock, currBlock, lastBlock := b, b, b;
      ring := [b];
      cur := 0;
      new;
      var pb := firstBlock;
      for i := 1 to size
        invariant |ring| == i && fresh(ring) && ring[0] == firstBlock && pb == ring[i - 1]
        invariant forall k, j | 0 <= k < j < |ring| :: ring[k] != ring[j]
        invariant forall k | 0 <= k < |ring| - 1 :: ring[k].next == ring[k + 1]
        invariant firstBlock == currBlock == lastBlock
        invariant count == 0 && cur == 0 && nextMsgNo == 1 && this.size == size
      {
        var nb := new Block();
        pb.next := nb;
        ring := ring + [nb];
        pb := nb;
      }
      pb.next := firstBlock;
    }

    function GetCurrBufSize(): (r: int)
      requires Valid()
      reads this, ring
      ensures r == |View().blocks|
    {
      count
    }

    /** The next packet never sent, if there is one. */
    method ReadData() returns (found: bool, chunk: Chunk)
      requires Valid()
      modifies this`currBlock, this`cur
      ensures Valid() && ring == old(ring)
      ensures var b := old(View());
        if b.cur == |b.blocks| then !found && View() == b
        else found && chunk == b.blocks[b.cur] && View() == b.(cur := b.cur + 1)
    {
      if currBlock == lastBlock {
        return false, Chunk(0, []);
      }
      chunk := Chunk(currBlock.header, currBlock.data);
      assert ring[cur].next == ring[cur + 1];
      currBlock := currBlock.next;
      cur := cur + 1;
      found := true;
    }

    /** Follows the links offset times from the oldest block in use. */
    method Nth(offset: int) returns (p: Block)
      requires Valid() && 0 <= offset < size
      ensures p == ring[offset]
    {
      p := firstBlock;
      for i := 0 to offset
        invariant p == ring[i]
      {
        assert ring[i].next == ring[i + 1];
        p := p.next;
      }
    }

    /** The packet offset places after the oldest one in use. */
    method ReadDataAt(offset: int) returns (chunk: Chunk)
      requires Valid() && 0 <= offset < count
      ensures chunk == View().blocks[offset]
    {
      var p := Nth(offset);
      chunk := Chunk(p.header, p.data);
    }

    /** Releases the offset oldest packets. */
    method Ack(offset: int)
      requires Valid() && 0 <= offset <= View().cur
      modifies this`firstBlock, this`count, this`ring, this`cur
      ensures Valid() && View() == AckData(old(View()), offset)
      ensures Blocks() == old(Blocks())
    {
      hide Circular, Contents, IsMsgNo;
      RotateCircular(ring, offset);
      RotateSame(ring, offset);
      ContentsDrop(ring[..count], offset);
      firstBlock := Nth(offset);
      count := count - offset;
      cur := cur - offset;
      ghost var was := ring;
      ring := was[offset..] + was[..offset];
      assert ring[..count] == was[..count + offset][offset..];
    }

    static lemma RotateSame(blocks: seq<Block>, k: int)
      requires 0 <= k <= |blocks|
      ensures (set b | b in blocks[k..] + blocks[..k]) == (set b | b in blocks)
    {
      assert blocks[..k] + blocks[k..] == blocks;
    }

    static lemma ContentsDrop(blocks: seq<Block>, k: int)
      requires 0 <= k <= |blocks|
      ensures Contents(blocks[k..]) == Contents(blocks)[k..]
    {
    }

    /** Adds a message, growing the ring until it fits. */
    method Add(data: seq<byte>, order: bool)
      requires Valid()
      modifies this, Blocks()
      ensures Valid() && View() == AddBuffer(old(View()), data, mss, order)
      ensures fresh(Blocks() - old(Blocks()))
    {
      hide Circular, Contents, Chop, MakeHeader, IsMsgNo;
      PiecesBounds(|data|, mss);
      ChopCount(data, mss, nextMsgNo, order, true, Pieces(|data|, mss));
      var n := |data| / mss;
      if |data| % mss != 0 {
        n := n + 1;
      }
      while n + count >= size
        invariant Valid() && View() == old(View()) && count == old(count) && nextMsgNo == old(nextMsgNo)
        invariant fresh(Blocks() - old(Blocks()))
        decreases n + count - size
      {
        Increase();
      }
      WriteBlocks(data, n, order);
    }

    static lemma RotateCircular(blocks: seq<Block>, k: int)
      requires 0 <= k < |blocks| && Circular(blocks)
      ensures Circular(blocks[k..] + blocks[..k])
    {
      var r, n := blocks[k..] + blocks[..k], |blocks|;
      forall i | 0 <= i < n
        ensures r[i] == blocks[if i + k < n then i + k else i + k - n]
      {
      }
      forall i, j | 0 <= i < j < n
        ensures r[i] != r[j]
      {
        var x, y := if i + k < n then i + k else i + k - n, if j + k < n then j + k else j + k - n;
        assert if x < y then blocks[x] != blocks[y] else blocks[y] != blocks[x];
      }
      forall i | 0 <= i < n - 1
        ensures r[i].next == r[i + 1]
      {
        var x := if i + k < n then i + k else i + k - n;
        assert x == n - 1 || blocks[x].next == blocks[x + 1];
      }
      var z := if n - 1 + k < n then n - 1 + k else k - 1;
      assert z == n - 1 || blocks[z].next == blocks[z + 1];
    }

    /** Adds unitSize free blocks behind the first free one. */
    method Increase()
      requires Valid()
      modifies this`size, this`ring, Blocks()
      ensures Valid() && View() == old(View()) && size == old(size) + unitSize
      ensures fresh(Blocks() - old(Blocks()))
    {
      var nblk, pb;
      ghost var added;
      nblk, pb, added := NewChain(unitSize);
      ghost var k := count + 1;
      ghost var r := ring[..k] + added + ring[k..];
      SpliceDistinct(ring, added, k);
      Splice(nblk, pb, added);
      assert Circular(r);
      hide Circular;
      assert r[..count] == ring[..count];
      ring := r;
      size := size + unitSize;
    }

    /** Links a new chain in behind the first free block. */
    method Splice(nblk: Block, pb: Block, ghost added: seq<Block>)
      requires Valid() && |added| == unitSize && added[0] == nblk && added[unitSize - 1] == pb
      requires forall k {:trigger added[k].next} | 0 <= k < unitSize - 1 :: added[k].next == added[k + 1]
      requires forall k, j | 0 <= k < j < unitSize :: added[k] != added[j]
      requires forall i, j | 0 <= i < size && 0 <= j < unitSize :: ring[i] != added[j]
      modifies pb`next, lastBlock`next
      ensures var r := ring[..count + 1] + added + ring[count + 1..];
        && (forall i {:trigger r[i].next} | 0 <= i < |r| - 1 :: r[i].next == r[i + 1])
        && r[|r| - 1].next == r[0]
    {
      ghost var k := count + 1;
      assert ring[count].next == if k == size then ring[0] else ring[k];
      Relink(nblk, pb);
      assert forall i {:trigger ring[i].next} | 0 <= i < size && i != count :: ring[i].next == old(ring[i].next);
      assert forall j {:trigger added[j].next} | 0 <= j < unitSize - 1 :: added[j].next == old(added[j].next);
      SplicedChain(ring, added, k);
    }

    /** A chain put between places k - 1 and k of a ring makes a longer ring. */
    static lemma SplicedChain(ring: seq<Block>, added: seq<Block>, k: int)
      requires 0 < k <= |ring| && added != []
      requires forall i {:trigger ring[i].next} | 0 <= i < |ring| - 1 && i != k - 1 :: ring[i].next == ring[i + 1]
      requires forall j {:trigger added[j].next} | 0 <= j < |added| - 1 :: added[j].next == added[j + 1]
      requires ring[k - 1].next == added[0] && (k < |ring| ==> ring[|ring| - 1].next == ring[0])
      requires added[|added| - 1].next == if k == |ring| then ring[0] else ring[k]
      ensures var r := ring[..k] + added + ring[k..];
        && (forall i {:trigger r[i].next} | 0 <= i < |r| - 1 :: r[i].next == r[i + 1])
        && r[|r| - 1].next == r[0]
    {
      var r := ring[..k] + added + ring[k..];
      SpliceIndex(ring, added, k);
      forall i | 0 <= i < |r|
        ensures r[i].next == r[if i + 1 == |r| then 0 else i + 1]
      {
        if i < k {
          assert r[i].next == ring[i].next;
        } else if i < k + |added| {
          assert r[i].next == added[i - k].next;
        } else {
          assert r[i].next == ring[i - |added|].next;
        }
      }
    }

    method Relink(nblk: Block, pb: Block)
      requires pb != lastBlock
      modifies pb`next, lastBlock`next
      ensures pb.next == old(lastBlock.next) && lastBlock.next == nblk
    {
      pb.next := lastBlock.next;
      lastBlock.next := nblk;
    }

    static lemma SpliceDistinct(r: seq<Block>, added: seq<Block>, k: int)
      requires 0 <= k <= |r|
      requires forall i, j | 0 <= i < j < |r| :: r[i] != r[j]
      requires forall i, j | 0 <= i < j < |added| :: added[i] != added[j]
      requires forall i, j | 0 <= i < |r| && 0 <= j < |added| :: r[i] != added[j]
      ensures var s := r[..k] + added + r[k..];
        forall i, j | 0 <= i < j < |s| :: s[i] != s[j]
    {
    }

    /** A chain of n new blocks. */
    static method NewChain(n: int) returns (first: Block, last: Block, ghost added: seq<Block>)
      requires n > 0
      ensures |added| == n && fresh(added) && added[0] == first && added[n - 1] == last
      ensures forall k, j | 0 <= k < j < n :: added[k] != added[j]
      ensures forall k {:trigger added[k].next} | 0 <= k < n - 1 :: added[k].next == added[k + 1]
    {
      first := new Block();
      last := first;
      added := [first];
      for i := 1 to n
        invariant |added| == i && fresh(added) && added[0] == first && last == added[i - 1]
        invariant forall k, j | 0 <= k < j < i :: added[k] != added[j]
        invariant forall k | 0 <= k < i - 1 :: added[k].next == added[k + 1]
      {
        var nb := new Block();
        last.next := nb;
        last := nb;
        added := added + [nb];
      }
    }

    static lemma SpliceIndex(r: seq<Block>, added: seq<Block>, k: int)
      requires 0 <= k <= |r|
      ensures var s := r[..k] + added + r[k..];
        forall i | 0 <= i < |s| ::
          s[i] == if i < k then r[i] else if i < k + |added| then added[i - k] else r[i - |added|]
    {
    }

    /** Puts a message into n free blocks. */
    method WriteBlocks(data: seq<byte>, n: int, order: bool)
      requires Valid() && 0 <= n && n + count < size && ArePieces(n, |data|, mss)
      requires |Chop(data, mss, nextMsgNo, order, true)| == n
      modifies this`lastBlock, this`count, this`nextMsgNo, ring`data, ring`header
      ensures Valid() && ring == old(ring) && View() == AddBuffer(old(View()), data, mss, order)
    {
      hide MakeHeader, Chop, Circular, Contents, NextMsgNo, IsMsgNo, Pieces, ArePieces;
      lastBlock := AppendBlocks(data, n, order);
      count := count + n;
      nextMsgNo := NextMsgNo(nextMsgNo);
    }

    method AppendBlocks(data: seq<byte>, n: int, order: bool) returns (s: Block)
      requires Valid() && 0 <= n && n + count < size && ArePieces(n, |data|, mss)
      requires |Chop(data, mss, nextMsgNo, order, true)| == n
      modifies ring`data, ring`header
      ensures s == ring[count + n]
      ensures Contents(ring[..count + n]) == old(Contents(ring[..count])) + Chop(data, mss, nextMsgNo, order, true)
    {
      hide Contents, MakeHeader, Chop, IsMsgNo, Circular, ArePieces, Pieces;
      assert |ring| == size && 0 <= count;
      hide *;
      s := FillBlocks(data, n, order);
      FilledContents(n);
    }

    lemma FilledContents(n: int)
      requires 0 <= n && 0 <= count && count + n <= |ring|
      ensures Contents(ring[..count + n]) == Contents(ring[..count]) + Contents(ring[count..count + n])
    {
      ContentsConcat(ring[..count], ring[count..count + n]);
      hide Contents;
      assert ring[..count] + ring[count..count + n] == ring[..count + n];
    }

    static lemma ContentsConcat(a: seq<Block>, b: seq<Block>)
      ensures Contents(a + b) == Contents(a) + Contents(b)
    {
    }

    /** Fills n blocks from the first free one on; returns the block after them. */
    method FillBlocks(data: seq<byte>, n: int, order: bool) returns (s: Block)
      requires Valid() && 0 <= n && n + count < size && ArePieces(n, |data|, mss)
      requires |Chop(data, mss, nextMsgNo, order, true)| == n
      modifies ring`data, ring`header
      ensures s == ring[count + n] && Contents(ring[..count]) == old(Contents(ring[..count]))
      ensures Contents(ring[count..count + n]) == Chop(data, mss, nextMsgNo, order, true)
    {
      hide Contents, MakeHeader, Chop, IsMsgNo, Circular;
      ghost var all := Chop(data, mss, nextMsgNo, order, true);
      s := WritePieces(data, n, order, all);
      ghost var part := ring[count..count + n];
      assert forall k | 0 <= k < n :: part[k] == ring[count + k];
    }

    method WritePieces(data: seq<byte>, n: int, order: bool, ghost all: seq<Chunk>) returns (s: Block)
      requires Valid() && 0 <= n && n + count < size && ArePieces(n, |data|, mss)
      requires all == Chop(data, mss, nextMsgNo, order, true) && |all| == n
      modifies ring`data, ring`header
      ensures s == ring[count + n]
      ensures forall k | 0 <= k < n :: ring[count + k].header == all[k].header && ring[count + k].data == all[k].bytes
      ensures forall k | 0 <= k < count :: ring[k].header == old(ring[k].header) && ring[k].data == old(ring[k].data)
    {
      hide MakeHeader, Chop, Piece, IsMsgNo, Circular, ArePieces, Pieces, Rest;
      s := lastBlock;
      for i := 0 to n
        invariant s == ring[count + i]
        invariant forall k | 0 <= k < i ::
          ring[count + k].header == all[k].header && ring[count + k].data == all[k].bytes
        invariant forall k | 0 <= k < count ::
          ring[k].header == old(ring[k].header) && ring[k].data == old(ring[k].data)
      {
        PieceAt(data, mss, nextMsgNo, i, n, order);
        var piece := Piece(data, mss, nextMsgNo, i, n, order);
        s := WritePiece(s, piece, count + i);
      }
    }

    /** Writes one packet into the block at place j of the ring; returns the block after it. */
    method WritePiece(b: Block, piece: Chunk, ghost j: int) returns (s: Block)
      requires Valid() && 0 <= j < size - 1 && b == ring[j]
      modifies b`data, b`header
      ensures s == ring[j + 1] && b.data == piece.bytes && b.header == piece.header
      ensures forall k | 0 <= k < size && k != j ::
        ring[k].header == old(ring[k].header) && ring[k].data == old(ring[k].data)
    {
      b.data, b.header := piece.bytes, piece.header;
      assert ring[j].next == ring[j + 1];
      s := b.next;
    }
  }
}
