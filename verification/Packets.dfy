/** Data packets: payload bytes and the message header word. */
module Packets {
  import Basics

  type byte = Basics.byte

  /** One data packet's worth of a message: the second header word and the payload. */
  datatype Chunk = Chunk(header: bv32, bytes: seq<byte>)

  const MAX_MSG_NO: bv32 := 0x1FFF_FFFF

  /** The header word of a fragment. */
  function MakeHeader(msgNo: bv32, order: bool, first: bool, last: bool): bv32 {
    msgNo | (if order then 0x2000_0000 else 0)
    | (if first then 0x8000_0000 else 0) | (if last then 0x4000_0000 else 0)
  }

  function Boundary(header: bv32): bv32 {
    (header >> 30) & 3
  }

  predicate OrderFlag(header: bv32) {
    (header >> 29) & 1 == 1
  }

  function MsgSeq(header: bv32): bv32 {
    header & 0x1FFF_FFFF
  }

  predicate IsFirst(header: bv32) {
    Boundary(header) == 2 || Boundary(header) == 3
  }

  predicate IsLast(header: bv32) {
    Boundary(header) == 1 || Boundary(header) == 3
  }

  /** What was packed into a header word is read back from it. */
  lemma HeaderRoundTrip(msgNo: bv32, order: bool, first: bool, last: bool)
    requires msgNo <= MAX_MSG_NO
    ensures var h := MakeHeader(msgNo, order, first, last);
      && MsgSeq(h) == msgNo && OrderFlag(h) == order && IsFirst(h) == first && IsLast(h) == last
      && Boundary(h) == (if first then 2 else 0) | (if last then 1 else 0)
  {
  }

  /** In the header word bit 31 marks the first fragment, bit 30 the last one, bit 29 a message that keeps its order,
      and the other bits are the message number. */
  lemma HeaderLayout(msgNo: bv32, order: bool, first: bool, last: bool)
    requires msgNo <= MAX_MSG_NO
    ensures var h := MakeHeader(msgNo, order, first, last);
      && (h & 0x8000_0000 != 0 <==> first) && (h & 0x4000_0000 != 0 <==> last) && (h & 0x2000_0000 != 0 <==> order)
      && h & 0x1FFF_FFFF == msgNo
  {
  }

  /** All payload bytes, in order. */
  function Flatten(chunks: seq<Chunk>): seq<byte> {
    if chunks == [] then [] else Flatten(chunks[..|chunks| - 1]) + chunks[|chunks| - 1].bytes
  }

  lemma {:induction false} FlattenConcat(a: seq<Chunk>, b: seq<Chunk>)
    ensures Flatten(a + b) == Flatten(a) + Flatten(b)
  {
    if b == [] {
      assert a + b == a;
    } else {
      var init := b[..|b| - 1];
      assert (a + b)[..|a + b| - 1] == a + init;
      FlattenConcat(a, init);
    }
  }

  lemma FlattenHead(chunks: seq<Chunk>)
    requires chunks != []
    ensures Flatten(chunks) == chunks[0].bytes + Flatten(chunks[1..])
  {
    assert chunks == [chunks[0]] + chunks[1..];
    FlattenConcat([chunks[0]], chunks[1..]);
    assert [chunks[0]][..0] == [];
  }

  /** The bytes of a prefix are a prefix of the bytes. */
  lemma FlattenPrefix(chunks: seq<Chunk>, k: nat)
    requires k <= |chunks|
    ensures Flatten(chunks[..k]) <= Flatten(chunks)
  {
    hide Flatten;
    var a, b := chunks[..k], chunks[k..];
    assert a + b == chunks;
    FlattenConcat(a, b);
  }
}
