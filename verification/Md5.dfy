/** MD5 fed piece by piece: a 64-byte buffer and a 64-bit length around the compression function of RFC 1321. */
module Md5s {
  import opened Basics

  const WORD := 0x1_0000_0000
  const LONG := 0x1_0000_0000_0000_0000
  const BLOCK := 64

  type word = x: int | 0 <= x < 0x1_0000_0000

  /** The four registers. */
  datatype Words = Words(a: word, b: word, c: word, d: word)

  /** The compression function: takes in one block. */
  type Process = (Words, seq<byte>) -> Words

  const INIT := Words(0x67452301, 0xefcdab89, 0x98badcfe, 0x10325476)

  // ---------- the standard ----------

  /** Section 3.4 of RFC 1321: the blocks are processed from the first on; what does not fill a block is left. */
  function Fold(process: Process, w: Words, bytes: seq<byte>): Words
    decreases |bytes|
  {
    if |bytes| < BLOCK then w else Fold(process, process(w, bytes[..BLOCK]), bytes[BLOCK..])
  }

  /** The n low-order bytes of x, low-order byte first. */
  function LittleEndian(x: nat, n: nat): (r: seq<byte>)
    ensures |r| == n
  {
    if n == 0 then [] else [x % 256] + LittleEndian(x / 256, n - 1)
  }

  /** Section 3.1: one 1-bit, then 0-bits, until 448 modulo 512 bits are reached; at least one bit is added. */
  function Padding(n: nat): (r: seq<byte>)
    ensures 1 <= |r| <= BLOCK && (n + |r|) % BLOCK == 56
    ensures r[0] == 0x80 && forall i | 0 < i < |r| :: r[i] == 0
  {
    [0x80] + seq((55 - n) % BLOCK, i => 0)
  }

  /** Section 3.2: then the length in bits, modulo two to the 64. */
  function Padded(msg: seq<byte>): seq<byte> {
    msg + Padding(|msg|) + LittleEndian(8 * |msg| % LONG, 8)
  }

  lemma PaddedIsWhole(msg: seq<byte>)
    ensures |Padded(msg)| % BLOCK == 0 && |msg| + 9 <= |Padded(msg)| <= |msg| + BLOCK + 8
  {
    hide LittleEndian, Padding;
    EightMore(|msg| + |Padding(|msg|)|);
  }

  lemma EightMore(n: nat)
    requires n % BLOCK == 56
    ensures (n + 8) % BLOCK == 0
  {
  }

  /** Section 3.5: the registers in order, low-order byte first. */
  function Output(w: Words): seq<byte> {
    LittleEndian(w.a, 4) + LittleEndian(w.b, 4) + LittleEndian(w.c, 4) + LittleEndian(w.d, 4)
  }

  function Digest(process: Process, msg: seq<byte>): seq<byte> {
    Output(Fold(process, INIT, Padded(msg)))
  }

  /** Section 3.3: the registers start as the bytes 01 to ef going up and fe to 10 going down. */
  lemma StartRegisters()
    ensures Output(INIT) ==
      [0x01, 0x23, 0x45, 0x67, 0x89, 0xab, 0xcd, 0xef, 0xfe, 0xdc, 0xba, 0x98, 0x76, 0x54, 0x32, 0x10]
  {
    hide LittleEndian;
    WordBytes(INIT.a);
    WordBytes(INIT.b);
    WordBytes(INIT.c);
    WordBytes(INIT.d);
  }

  /** The number that bytes stand for, the low-order one first. */
  function Value(bytes: seq<byte>): nat {
    if bytes == [] then 0 else bytes[0] + 256 * Value(bytes[1..])
  }

  lemma {:induction false} LittleEndianValue(x: nat, n: nat)
    requires x < Power(n)
    ensures Value(LittleEndian(x, n)) == x
  {
    if n > 0 {
      var rest := LittleEndian(x / 256, n - 1);
      LittleEndianValue(x / 256, n - 1);
      assert ([x % 256] + rest)[1..] == rest;
    }
  }

  // ---------- folding and counting ----------

  lemma {:induction false} FoldConcat(process: Process, w: Words, a: seq<byte>, b: seq<byte>)
    requires |a| % BLOCK == 0
    ensures Fold(process, w, a + b) == Fold(process, Fold(process, w, a), b)
    decreases |a|
  {
    if a == [] {
      assert a + b == b;
    } else {
      FoldConcat(process, process(w, a[..BLOCK]), a[BLOCK..], b);
      assert (a + b)[..BLOCK] == a[..BLOCK] && (a + b)[BLOCK..] == a[BLOCK..] + b;
    }
  }

  lemma FoldBlock(process: Process, w: Words, a: seq<byte>, block: seq<byte>)
    requires |a| % BLOCK == 0 && |block| == BLOCK
    ensures Fold(process, w, a + block) == process(Fold(process, w, a), block)
  {
    FoldConcat(process, w, a, block);
    assert block[..BLOCK] == block;
  }

  lemma FoldTail(process: Process, w: Words, a: seq<byte>, tail: seq<byte>)
    requires |a| % BLOCK == 0 && |tail| < BLOCK
    ensures Fold(process, w, a + tail) == Fold(process, w, a)
  {
    FoldConcat(process, w, a, tail);
  }

  /** The two words hold the number of bits taken in. */
  ghost predicate Counts(count0: word, count1: word, n: nat) {
    count1 * WORD + count0 == 8 * n % LONG
  }

  lemma CountedOffset(count0: word, count1: word, n: nat)
    requires Counts(count0, count1, n)
    ensures count0 / 8 % BLOCK == n % BLOCK
  {
    var q := 8 * n / LONG;
    assert 8 * n == q * LONG + count1 * WORD + count0;
    assert count0 == 8 * (n - q * 0x2000_0000 * WORD - count1 * 0x2000_0000);
    var k := n - q * 0x2000_0000 * WORD - count1 * 0x2000_0000;
    assert count0 / 8 == k;
    assert n == k + BLOCK * (q * 0x80_0000 * WORD + count1 * 0x80_0000);
  }

  lemma PadLength(a: nat, b: nat)
    requires a % BLOCK == b % BLOCK
    ensures (55 - a) % BLOCK == (55 - b) % BLOCK
  {
  }

  function Carried(count0: word, count1: word, nbytes: nat): (r: (word, word)) {
    var nbits := nbytes * 8 % WORD;
    var low := (count0 + nbits) % WORD;
    var high := (count1 + nbytes / 0x2000_0000) % WORD;
    (low, if low < nbits then (high + 1) % WORD else high)
  }

  lemma CountedMore(count0: word, count1: word, n: nat, nbytes: nat)
    requires Counts(count0, count1, n) && nbytes <= INT_MAX
    ensures var (low, high) := Carried(count0, count1, nbytes);
      Counts(low, high, n + nbytes)
  {
    var (low, high) := Carried(count0, count1, nbytes);
    var nbits, up := nbytes * 8 % WORD, nbytes / 0x2000_0000;
    assert nbytes * 8 == up * WORD + nbits;
    var carry, over := CarryBits(count0, count1, nbits, up, low, high);
    var q := 8 * n / LONG;
    assert 8 * (n + nbytes) == (q + over) * LONG + high * WORD + low;
    ModUnique(8 * (n + nbytes), q + over, high * WORD + low);
  }

  lemma CarryBits(count0: word, count1: word, nbits: word, up: nat, low: word, high: word)
    returns (carry: nat, over: nat)
    requires up < 8
    requires low == (count0 + nbits) % WORD
    requires high == if low < nbits then ((count1 + up) % WORD + 1) % WORD else (count1 + up) % WORD
    ensures low == count0 + nbits - carry * WORD
    ensures high == count1 + up + carry - over * WORD
  {
    carry := if count0 + nbits >= WORD then 1 else 0;
    over := if count1 + up + carry >= WORD then 1 else 0;
  }

  lemma ModUnique(x: nat, q: nat, r: nat)
    requires x == q * LONG + r && r < LONG
    ensures x % LONG == r
  {
  }

  /** Byte k of a word. */
  function ByteOf(w: word, k: nat): byte
    requires k < 4
  {
    w / [1, 0x100, 0x1_0000, 0x100_0000][k] % 256
  }

  lemma WordBytes(w: word)
    ensures LittleEndian(w, 4) == [ByteOf(w, 0), ByteOf(w, 1), ByteOf(w, 2), ByteOf(w, 3)]
  {
    var x1, x2, x3 := w / 256, w / 256 / 256, w / 256 / 256 / 256;
    assert x2 == w / 0x1_0000 && x3 == w / 0x100_0000;
    assert LittleEndian(x3, 1) == [x3 % 256] + LittleEndian(x3 / 256, 0);
    assert LittleEndian(x2, 2) == [x2 % 256] + LittleEndian(x3, 1);
    assert LittleEndian(x1, 3) == [x1 % 256] + LittleEndian(x2, 2);
  }

  lemma {:induction false} BytesSplit(low: nat, high: nat, n: nat, m: nat, power: nat)
    requires low < power && power == Power(n)
    ensures LittleEndian(high * power + low, n + m) == LittleEndian(low, n) + LittleEndian(high, m)
  {
    if n > 0 {
      var rest := Power(n - 1);
      assert power == 256 * rest;
      SplitDigit(low, high, rest);
      BytesSplit(low / 256, high, n - 1, m, rest);
    } else {
      assert high * power + low == high;
    }
  }

  function Power(n: nat): nat {
    if n == 0 then 1 else 256 * Power(n - 1)
  }

  lemma SplitDigit(low: nat, high: nat, rest: nat)
    requires low < 256 * rest
    ensures (high * (256 * rest) + low) % 256 == low % 256
    ensures (high * (256 * rest) + low) / 256 == high * rest + low / 256
    ensures low / 256 < rest
  {
    var h := high * rest;
    assert high * (256 * rest) == 256 * h;
    Digits(h, low);
  }

  // ---------- the running state ----------

  lemma Digits(h: nat, low: nat)
    ensures (256 * h + low) % 256 == low % 256 && (256 * h + low) / 256 == h + low / 256
  {
  }

  /** The blocks filled so far are folded into the registers, the rest is at the start of the buffer. */
  ghost predicate Holds(process: Process, fed: seq<byte>, w: Words, buf: seq<byte>) {
    && |buf| == BLOCK && w == Fold(process, INIT, fed)
    && buf[..|fed| % BLOCK] == fed[|fed| - |fed| % BLOCK..]
  }

  lemma Partial(process: Process, fed: seq<byte>, w: Words, buf: seq<byte>, more: seq<byte>, now: seq<byte>)
    requires Holds(process, fed, w, buf) && |fed| % BLOCK + |more| < BLOCK == |now|
    requires now[..|fed| % BLOCK + |more|] == buf[..|fed| % BLOCK] + more
    ensures Holds(process, fed + more, w, now)
  {
    var offset := |fed| % BLOCK;
    var whole := fed[..|fed| - offset];
    assert fed == whole + buf[..offset] && fed + more == whole + (buf[..offset] + more);
    FoldTail(process, INIT, whole, buf[..offset]);
    FoldTail(process, INIT, whole, buf[..offset] + more);
    assert |fed + more| % BLOCK == offset + |more|;
  }

  lemma Filled(process: Process, fed: seq<byte>, w: Words, buf: seq<byte>, more: seq<byte>)
    requires Holds(process, fed, w, buf) && |fed| % BLOCK + |more| == BLOCK
    ensures |fed + more| % BLOCK == 0
    ensures process(w, buf[..|fed| % BLOCK] + more) == Fold(process, INIT, fed + more)
  {
    var offset := |fed| % BLOCK;
    var whole := fed[..|fed| - offset];
    assert fed == whole + buf[..offset] && fed + more == whole + (buf[..offset] + more);
    FoldTail(process, INIT, whole, buf[..offset]);
    FoldBlock(process, INIT, whole, buf[..offset] + more);
  }

  class Md5State {

    const process: Process
    var count0: word
    var count1: word
    var abcd: Words
    const buf: array<byte>
    ghost var fed: seq<byte>

    ghost predicate Valid()
      reads this, buf
    {
      buf.Length == BLOCK && Counts(count0, count1, |fed|) && Holds(process, fed, abcd, buf[..])
    }

    constructor (process: Process)
      ensures Valid() && fresh(buf) && fed == [] && this.process == process
    {
      this.process := process;
      count0, count1 := 0, 0;
      abcd := INIT;
      buf := new byte[BLOCK](i => 0);
      fed := [];
    }

    method Append(data: seq<byte>, nbytes: int)
      requires Valid() && nbytes <= |data| && nbytes <= INT_MAX
      modifies this, buf
      ensures Valid()
      ensures fed == old(fed) + if nbytes > 0 then data[..nbytes] else []
    {
      hide Fold, Counts, Holds;
      if nbytes <= 0 {
        return;
      }
      CountedOffset(count0, count1, |fed|);
      CountedMore(count0, count1, |fed|, nbytes);
      var offset := count0 / 8 % BLOCK;
      var (low, high) := Carried(count0, count1, nbytes);
      count0, count1 := low, high;
      FirstBlock(data[..nbytes], offset);
    }

    /** Fills up a block begun before. */
    method FirstBlock(data: seq<byte>, offset: nat)
      requires offset == |fed| % BLOCK && Holds(process, fed, abcd, buf[..])
      modifies this`abcd, this`fed, buf
      ensures fed == old(fed) + data && Holds(process, fed, abcd, buf[..])
    {
      hide Fold;
      if offset == 0 {
        Blocks(data);
        return;
      }
      var copy := if offset + |data| > BLOCK then BLOCK - offset else |data|;
      ghost var was := buf[..];
      Fill(offset, data[..copy]);
      if offset + copy < BLOCK {
        assert data[..copy] == data;
        Partial(process, fed, abcd, was, data, buf[..]);
        fed := fed + data;
        return;
      }
      Filled(process, fed, abcd, was, data[..copy]);
      assert buf[..] == was[..offset] + data[..copy];
      hide Holds;
      abcd := process(abcd, buf[..]);
      fed := fed + data[..copy];
      Blocks(data[copy..]);
      assert data == data[..copy] + data[copy..];
    }

    /** The part of Append that starts at a block boundary. */
    method Blocks(data: seq<byte>)
      requires buf.Length == BLOCK && |fed| % BLOCK == 0 && abcd == Fold(process, INIT, fed)
      modifies this`abcd, this`fed, buf
      ensures fed == old(fed) + data && Holds(process, fed, abcd, buf[..])
    {
      hide Fold;
      var p := 0;
      while |data| - p >= BLOCK
        invariant 0 <= p <= |data| && |fed| % BLOCK == 0
        invariant abcd == Fold(process, INIT, fed) && fed == old(fed) + data[..p]
      {
        WholeBlock(data[p..p + BLOCK]);
        p := p + BLOCK;
      }
      if p < |data| {
        Fill(0, data[p..]);
      }
      Partial(process, fed, abcd, buf[..], data[p..], buf[..]);
      fed := fed + data[p..];
    }

    method WholeBlock(block: seq<byte>)
      requires |block| == BLOCK && |fed| % BLOCK == 0 && abcd == Fold(process, INIT, fed)
      modifies this`abcd, this`fed
      ensures abcd == Fold(process, INIT, fed) && fed == old(fed) + block && |fed| % BLOCK == 0
    {
      FoldBlock(process, INIT, fed, block);
      abcd := process(abcd, block);
      fed := fed + block;
    }

    /** Copies bytes into the buffer. */
    method Fill(at: nat, bytes: seq<byte>)
      requires at + |bytes| <= buf.Length
      modifies buf
      ensures buf[..at + |bytes|] == old(buf[..at]) + bytes
    {
      for i := 0 to |bytes|
        invariant buf[..at + i] == old(buf[..at]) + bytes[..i]
      {
        buf[at + i] := bytes[i];
      }
      assert bytes[..|bytes|] == bytes;
    }

    /** The digest of everything appended, as the standard defines it. */
    method Finish() returns (digest: seq<byte>)
      requires Valid()
      modifies this, buf
      ensures digest == Digest(process, old(fed))
    {
      var data := LengthBytes();
      Pad();
      Append(data, 8);
      assert data[..8] == data;
      assert fed == Padded(old(fed)) by {
        hide LittleEndian, Padding, Fold;
      }
      digest := OutputBytes();
    }

    method Pad()
      requires Valid()
      modifies this, buf
      ensures Valid() && fed == old(fed) + Padding(|old(fed)|)
    {
      hide Fold, Holds, Counts;
      CountedOffset(count0, count1, |fed|);
      var n := (55 - count0 / 8) % BLOCK + 1;
      PadLength(count0 / 8, |fed|);
      var pad := [0x80] + seq(63, i => 0);
      assert pad[..n] == Padding(|fed|);
      hide Padding;
      Append(pad, n);
    }

    /** The length before padding. */
    method LengthBytes() returns (data: seq<byte>)
      requires Valid()
      ensures data == LittleEndian(8 * |fed| % LONG, 8)
    {
      hide Fold, Holds, LittleEndian;
      data := [];
      for i := 0 to 8
        invariant |data| == i
        invariant forall j | 0 <= j < i :: data[j] == ByteOf(if j < 4 then count0 else count1, j % 4)
      {
        data := data + [ByteOf(if i < 4 then count0 else count1, i % 4)];
      }
      WordBytes(count0);
      WordBytes(count1);
      assert Power(4) == WORD;
      BytesSplit(count0, count1, 4, 4, WORD);
      hide Power, ByteOf;
      assert data == LittleEndian(count0, 4) + LittleEndian(count1, 4);
    }

    method OutputBytes() returns (digest: seq<byte>)
      ensures digest == Output(abcd)
    {
      hide LittleEndian;
      digest := [];
      for i := 0 to 16
        invariant |digest| == i
        invariant forall j | 0 <= j < i :: digest[j] == ByteOf(Register(j / 4), j % 4)
      {
        digest := digest + [ByteOf(Register(i / 4), i % 4)];
      }
      WordBytes(abcd.a);
      WordBytes(abcd.b);
      WordBytes(abcd.c);
      WordBytes(abcd.d);
      hide ByteOf;
    }

    function Register(k: nat): word
      requires k < 4
      reads this
    {
      match k
      case 0 => abcd.a
      case 1 => abcd.b
      case 2 => abcd.c
      case 3 => abcd.d
    }
  }

  function Joined(pieces: seq<seq<byte>>): seq<byte> {
    if pieces == [] then [] else Joined(pieces[..|pieces| - 1]) + pieces[|pieces| - 1]
  }

  /** However a message is cut into pieces, appending them and finishing gives the digest of the whole. */
  method HashPieces(process: Process, pieces: seq<seq<byte>>) returns (digest: seq<byte>)
    requires forall i | 0 <= i < |pieces| :: |pieces[i]| <= INT_MAX
    ensures digest == Digest(process, Joined(pieces))
  {
    hide Digest;
    var state := new Md5State(process);
    for i := 0 to |pieces|
      invariant state.Valid() && fresh(state) && fresh(state.buf) && state.process == process
      invariant state.fed == Joined(pieces[..i])
    {
      state.Append(pieces[i], |pieces[i]|);
      assert pieces[i][..|pieces[i]|] == pieces[i] && pieces[..i + 1][..i] == pieces[..i];
    }
    assert pieces[..|pieces|] == pieces;
    digest := state.Finish();
  }
}
