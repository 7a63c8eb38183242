/** Reference-counted memory blocks, the pools they come from, and the release of retired pools. */
module Blocks {
  import opened Basics

  datatype Result<T> = Ok(value: T) | OutOfBounds

  const UINT_SIZE := 0x1_0000_0000

  /** A reference counter, with the live block values that refer to its memory. */
  class Counter {
    var count: nat
    ghost var holders: set<Block>

    ghost predicate Valid()
      reads this, holders`counter
    {
      count == |holders| && forall b | b in holders :: b.counter == this
    }

    constructor ()
      ensures Valid() && holders == {}
    {
      count := 0;
      holders := {};
    }

    method Inc(ghost b: Block)
      requires Valid() && b !in holders && b.counter == this
      modifies this
      ensures Valid() && holders == old(holders) + {b}
    {
      count := count + 1;
      holders := holders + {b};
    }

    method Dec(ghost b: Block)
      requires Valid() && b in holders
      modifies this
      ensures Valid() && holders == old(holders) - {b}
    {
      count := count - 1;
      holders := holders - {b};
    }
  }

  /** A block value: len bytes from base on in some memory; myMemory says that the last one frees it. */
  class Block {
    var base: int
    var len: nat
    var myMemory: bool
    var counter: Counter

    ghost predicate Live()
      reads this, counter`holders
    {
      this in counter.holders
    }

    /** A block on a counter that has just been taken. */
    constructor (base: int, len: nat, myMemory: bool, counter: Counter)
      requires counter.Valid()
      modifies counter
      ensures this.base == base && this.len == len && this.myMemory == myMemory && this.counter == counter
      ensures Live() && counter.Valid() && counter.holders == old(counter.holders) + {this}
      ensures counter.count == old(counter.count) + 1
    {
      this.base, this.len, this.myMemory, this.counter := base, len, myMemory, counter;
      new;
      counter.Inc(this);
    }

    constructor Copy(other: Block)
      requires other.Live() && other.counter.Valid()
      modifies other.counter
      ensures base == other.base && len == other.len && myMemory == other.myMemory && counter == other.counter
      ensures Live() && counter.Valid() && counter.holders == old(other.counter.holders) + {this}
    {
      base, len, myMemory, counter := other.base, other.len, other.myMemory, other.counter;
      new;
      counter.Inc(this);
    }

    /** A slice of the block, on the same counter. The end is computed in 32 bits. */
    method Sub(offset: nat, length: nat) returns (r: Result<Block>)
      requires Live() && counter.Valid() && offset < UINT_SIZE && length < UINT_SIZE
      modifies counter
      ensures counter.Valid() && (r.Ok? <==> (offset + length) % UINT_SIZE <= len)
      ensures r.OutOfBounds? ==> counter.holders == old(counter.holders)
      ensures r.Ok? ==> fresh(r.value) && counter.holders == old(counter.holders) + {r.value}
      ensures r.Ok? ==> r.value.counter == counter && r.value.base == base + offset && r.value.len == length
      ensures r.Ok? ==> r.value.myMemory == myMemory
    {
      if (offset + length) % UINT_SIZE > len {
        return OutOfBounds;
      }
      var b := new Block(base + offset, length, myMemory, counter);
      return Ok(b);
    }

    /** The block lets go of its memory and takes other's; freed says that the memory left is freed. */
    method Assign(other: Block) returns (freed: bool)
      requires Live() && counter.Valid() && other.Live() && other.counter.Valid()
      modifies this, counter, other.counter
      ensures base == other.base && len == other.len && myMemory == other.myMemory && counter == other.counter
      ensures Live() && counter.Valid() && old(counter).Valid()
      ensures old(counter == other.counter) ==> counter.holders == old(counter.holders) && !freed
      ensures old(counter != other.counter) ==>
        && counter.holders == old(other.counter.holders) + {this}
        && old(counter).holders == old(counter.holders) - {this}
        && (freed <==> old(myMemory) && old(counter).holders == {})
    {
      if this == other {
        return false;
      }
      if counter == other.counter {
        other.counter.count := other.counter.count + 1;
        base := other.base;
        len := other.len;
        counter.count := counter.count - 1;
        freed := myMemory && counter.count == 0;
        myMemory := other.myMemory;
      } else {
        freed := Switch(other);
      }
    }

    /** Assign for blocks on different counters. */
    method Switch(other: Block) returns (freed: bool)
      requires Live() && counter.Valid() && other.Live() && other.counter.Valid() && counter != other.counter
      modifies this, counter, other.counter
      ensures base == other.base && len == other.len && myMemory == other.myMemory && counter == old(other.counter)
      ensures other.counter == counter && counter.Valid() && old(counter).Valid()
      ensures counter.holders == old(other.counter.holders) + {this}
      ensures old(counter).holders == old(counter.holders) - {this}
      ensures freed <==> old(myMemory) && old(counter).holders == {}
    {
      ghost var left, taken := counter, other.counter;
      ghost var leftHeld, takenHeld := left.holders, taken.holders;
      other.counter.count := other.counter.count + 1;
      base := other.base;
      len := other.len;
      counter.count := counter.count - 1;
      freed := myMemory && counter.count == 0;
      left.holders := leftHeld - {this};
      taken.holders := takenHeld + {this};
      counter := other.counter;
      myMemory := other.myMemory;
      assert forall b | b in left.holders :: b in leftHeld && b != this && b.counter == left;
      assert forall b | b in taken.holders :: b == this || b in takenHeld;
    }

    /** The block value ends; freed says that its memory is freed. */
    method Destroy() returns (freed: bool)
      requires Live() && counter.Valid()
      modifies counter
      ensures counter.Valid() && counter.holders == old(counter.holders) - {this} && !Live()
      ensures freed <==> myMemory && counter.holders == {}
    {
      counter.Dec(this);
      freed := myMemory && counter.count == 0;
    }
  }

  /** A slice is granted exactly when it lies inside the block or its end wraps around to a number inside. */
  lemma GrantedSlices(offset: nat, length: nat, len: nat)
    requires offset < UINT_SIZE && length < UINT_SIZE
    ensures (offset + length) % UINT_SIZE <= len
      <==> offset + length <= len || UINT_SIZE <= offset + length <= len + UINT_SIZE
  {
  }

  /** So two bytes of a block of one are granted, far outside it. */
  lemma SliceCanLieOutside()
    ensures (0xFFFF_FFFF + 2) % UINT_SIZE <= 1
  {
  }

  // ---------- pools ----------

  ghost predicate AllValid(use: seq<Counter>)
    reads use, set c, b | c in use && b in c.holders :: b`counter
  {
    forall i | 0 <= i < |use| :: use[i].Valid()
  }

  ghost predicate Distinct(use: seq<Counter>) {
    forall i, j | 0 <= i < j < |use| :: use[i] != use[j]
  }

  /** Going round n slots from start, slot k comes before slot i. */
  predicate Before(start: nat, k: nat, i: nat) {
    if i >= start then start <= k < i else k >= start || k < i
  }

  function Following(i: nat, n: nat): (r: nat)
    requires i < n
    ensures r == if i + 1 == n then 0 else i + 1
  {
    (i + 1) % n
  }

  /** Where k steps round n slots lead from start. */
  ghost function Round(start: nat, k: nat, n: nat): nat
    requires start < n && k < n
  {
    if start + k < n then start + k else start + k - n
  }

  /** The block's bytes are among those of slot i of its pool's memory. */
  ghost predicate InSlot(b: Block, i: nat, blockSize: nat)
    reads b
  {
    i * blockSize <= b.base && b.base + b.len <= (i + 1) * blockSize
  }

  /** The two blocks share no byte, being of one pool. */
  ghost predicate NoOverlap(a: Block, b: Block)
    reads a, b
  {
    a.base + a.len <= b.base || b.base + b.len <= a.base
  }

  lemma SlotsApart(a: Block, i: nat, b: Block, j: nat, blockSize: nat)
    requires InSlot(a, i, blockSize) && InSlot(b, j, blockSize) && i != j
    ensures NoOverlap(a, b)
  {
    if i < j {
      Times(i + 1, j, blockSize);
    } else {
      Times(j + 1, i, blockSize);
    }
  }

  lemma {:induction false} Times(i: nat, j: nat, n: nat)
    requires i <= j
    ensures i * n <= j * n
  {
  }

  /** A slice that does not reach beyond its block stays in the block's slot. */
  lemma SliceInSlot(b: Block, slice: Block, i: nat, blockSize: nat, offset: nat)
    requires InSlot(b, i, blockSize) && slice.base == b.base + offset && offset + slice.len <= b.len
    ensures InSlot(slice, i, blockSize)
  {
  }

  class Pool {
    var nextAlloc: nat
    const useCnt: seq<Counter>
    const blockSize: nat

    ghost predicate Valid()
      reads this, useCnt, set c, b | c in useCnt && b in c.holders :: b`counter
    {
      nextAlloc < |useCnt| && AllValid(useCnt) && Distinct(useCnt) && blockSize > 0
    }

    /** Every slot is referred to by some live block. */
    ghost predicate Full()
      reads useCnt
    {
      forall i | 0 <= i < |useCnt| :: useCnt[i].holders != {}
    }

    constructor (bs: nat, nb: nat)
      requires bs > 0 && nb > 0
      ensures Valid() && fresh(useCnt) && |useCnt| == nb && blockSize == bs
      ensures forall i | 0 <= i < nb :: useCnt[i].holders == {}
    {
      blockSize := bs;
      nextAlloc := 0;
      var use: seq<Counter> := [];
      for i := 0 to nb
        invariant |use| == i && fresh(use) && Distinct(use)
        invariant forall j | 0 <= j < i :: use[j].Valid() && use[j].holders == {}
      {
        var c := new Counter();
        use := use + [c];
      }
      useCnt := use;
    }

    /** Takes the first free slot, going round from where the last search ended, and gives up after one round. No live
        block refers to the memory handed out, and nothing is handed out only when every slot is in use. */
    method Get() returns (r: Option<Block>, ghost slot: nat)
      requires Valid()
      modifies this`nextAlloc, useCnt
      ensures Valid()
      ensures r.None? <==> old(Full())
      ensures r.None? ==> nextAlloc == old(nextAlloc) && unchanged(useCnt)
      ensures r.Some? ==> slot < |useCnt| && nextAlloc == Following(slot, |useCnt|)
      ensures r.Some? ==> slot < |useCnt| && old(useCnt[slot].holders) == {} && useCnt[slot].holders == {r.value}
      ensures r.Some? ==> fresh(r.value) && r.value.counter == useCnt[slot] && !r.value.myMemory
      ensures r.Some? ==> r.value.base == slot * blockSize && r.value.len == blockSize
      ensures r.Some? ==> forall i | 0 <= i < |useCnt| && i != slot :: useCnt[i].holders == old(useCnt[i].holders)
      ensures r.Some? ==>
        forall i | 0 <= i < |useCnt| && Before(old(nextAlloc), i, slot) :: old(useCnt[i].holders) != {}
    {
      var previousNext := nextAlloc;
      r, slot := None, nextAlloc;
      ghost var tried := 0;
      while true
        invariant r.None? && tried < |useCnt| && nextAlloc == Round(previousNext, tried, |useCnt|)
        invariant unchanged(useCnt) && Valid()
        invariant forall i | 0 <= i < |useCnt| && Before(previousNext, i, nextAlloc) :: useCnt[i].holders != {}
        decreases |useCnt| - tried
      {
        slot := nextAlloc;
        var free := useCnt[nextAlloc].count == 0;
        assert free <==> useCnt[slot].holders == {};
        if free {
          var b := TakeSlot(nextAlloc);
          r := Some(b);
        }
        nextAlloc := Following(nextAlloc, |useCnt|);
        if free || nextAlloc == previousNext {
          break;
        }
        tried := tried + 1;
      }
    }

    method TakeSlot(i: nat) returns (b: Block)
      requires Valid() && i < |useCnt| && useCnt[i].count == 0
      modifies useCnt[i]
      ensures Valid() && fresh(b) && useCnt[i].holders == {b} && b.counter == useCnt[i]
      ensures b.base == i * blockSize && b.len == blockSize && !b.myMemory
    {
      b := new Block(i * blockSize, blockSize, false, useCnt[i]);
    }
  }

  /** No counter belongs to two of the pools. */
  ghost predicate Apart(pools: seq<Pool>) {
    forall p, q | 0 <= p < q < |pools| :: forall c | c in pools[p].useCnt :: c !in pools[q].useCnt
  }

  class BlockPool {
    var pools: seq<Pool>
    const blockSize: nat
    const nblockPerPool: nat
    var curpool: nat
    ghost var counters: set<Counter>

    ghost predicate Valid()
      reads this, pools, counters, set c, b | c in counters && b in c.holders :: b`counter
    {
      && curpool < |pools| && blockSize > 0 && nblockPerPool > 0 && Apart(pools)
      && (forall p | 0 <= p < |pools| :: pools[p].blockSize == blockSize &&
            (forall i | 0 <= i < |pools[p].useCnt| :: pools[p].useCnt[i] in counters) && pools[p].Valid())
      && (forall p, q | 0 <= p < q < |pools| :: pools[p] != pools[q])
    }

    /** The block is a whole slot of its pool's memory, which is not the block's to free. */
    ghost predicate IsSlot(b: Block, slot: nat)
      reads b
    {
      b.base == slot * blockSize && b.len == blockSize && !b.myMemory
    }

    constructor (bs: nat, nb: nat)
      requires bs > 0 && nb > 0
      ensures Valid() && |pools| == 1 && blockSize == bs && fresh(pools[0]) && fresh(counters) && !pools[0].Full()
    {
      blockSize, nblockPerPool := bs, nb;
      var pool := new Pool(bs, nb);
      pools := [pool];
      counters := set c | c in pool.useCnt;
      curpool := 0;
      new;
      assert pools[0].useCnt[0].holders == {};
    }

    /** Hands out a block of the first pool that has a free slot, going round from the one used last; only when all
        slots of all pools are in use is a pool added. No live block refers to the memory handed out. */
    method Get() returns (r: Block, ghost p: nat, ghost slot: nat)
      requires Valid()
      modifies this, pools, counters
      ensures Valid() && p < |pools| && slot < |pools[p].useCnt|
      ensures fresh(r) && r.counter == pools[p].useCnt[slot] && r.counter.holders == {r}
      ensures r.base == slot * blockSize && r.len == blockSize && !r.myMemory && curpool == p
      ensures p < |old(pools)| ==> pools == old(pools) && old(pools[p].useCnt[slot].holders) == {}
      ensures p < |old(pools)| ==> forall i, b | 0 <= i < |pools[p].useCnt| && b in old(pools[p].useCnt[i].holders) ::
        InSlot(b, i, blockSize) ==> NoOverlap(b, r)
      ensures p < |old(pools)| ==> forall q | 0 <= q < |pools| && Before(old(curpool), q, p) :: old(pools[q].Full())
      ensures p >= |old(pools)| ==> |pools| == p + 1 && pools[..p] == old(pools) && fresh(pools[p].useCnt)
      ensures p >= |old(pools)| ==> forall q | 0 <= q < |old(pools)| :: old(pools[q].Full())
    {
      var got;
      got, p, slot := TryPools();
      hide AllValid, Distinct, Apart;
      if got.None? {
        AddPool();
        p := curpool;
        got, slot := GetFrom(curpool);
      }
      r := got.value;
      hide BlockPool.Valid, IsSlot;
      if p < |old(pools)| {
        forall i, b | 0 <= i < |pools[p].useCnt| && b in old(pools[p].useCnt[i].holders) && InSlot(b, i, blockSize)
          ensures NoOverlap(b, r)
        {
          InOwnSlot(r, slot);
          SlotsApart(b, i, r, slot, blockSize);
        }
      }
    }

    lemma InOwnSlot(b: Block, slot: nat)
      requires IsSlot(b, slot)
      ensures InSlot(b, slot, blockSize)
    {
    }

    /** Pool q is asked for a block. */
    method GetFrom(q: nat) returns (got: Option<Block>, ghost slot: nat)
      requires Valid() && q < |pools|
      modifies pools, counters
      ensures Valid()
      ensures got.None? <==> old(pools[q].Full())
      ensures got.None? ==> unchanged(pools) && unchanged(counters)
      ensures got.Some? ==> slot < |pools[q].useCnt| && old(pools[q].useCnt[slot].holders) == {}
      ensures got.Some? ==> fresh(got.value) && got.value.counter == pools[q].useCnt[slot]
      ensures got.Some? ==> got.value.counter.holders == {got.value} && IsSlot(got.value, slot)
    {
      got, slot := pools[q].Get();
    }

    method TryPools() returns (got: Option<Block>, ghost p: nat, ghost slot: nat)
      requires Valid()
      modifies this`curpool, pools, counters
      ensures Valid()
      ensures got.None? ==> unchanged(pools) && unchanged(counters)
      ensures got.None? ==> forall q | 0 <= q < |pools| :: old(pools[q].Full())
      ensures got.Some? ==> curpool == p
      ensures got.Some? ==> forall q | 0 <= q < |pools| && Before(old(curpool), q, p) :: old(pools[q].Full())
      ensures got.Some? ==> p < |pools| && slot < |pools[p].useCnt| && old(pools[p].useCnt[slot].holders) == {}
      ensures got.Some? ==> fresh(got.value) && got.value.counter == pools[p].useCnt[slot]
      ensures got.Some? ==> got.value.counter.holders == {got.value} && IsSlot(got.value, slot)
    {
      hide Pool.Valid, Apart;
      p, slot := curpool, 0;
      var oldcurpool := curpool;
      ghost var tried := 0;
      while true
        invariant Valid() && tried < |pools| && curpool == Round(oldcurpool, tried, |pools|)
        invariant unchanged(pools) && unchanged(counters)
        invariant forall q | 0 <= q < |pools| && Before(oldcurpool, q, curpool) :: old(pools[q].Full())
        decreases |pools| - tried
      {
        p := curpool;
        got, slot := TryCurrent();
        if got.Some? || curpool == oldcurpool {
          break;
        }
        tried := tried + 1;
      }
    }

    /** Asks the current pool, and goes on to the next one when it has nothing. */
    method TryCurrent() returns (got: Option<Block>, ghost slot: nat)
      requires Valid()
      modifies this`curpool, pools, counters
      ensures Valid()
      ensures got.None? ==> old(pools[curpool].Full()) && curpool == Following(old(curpool), |pools|)
      ensures got.None? ==> unchanged(pools) && unchanged(counters)
      ensures got.Some? ==> curpool == old(curpool)
      ensures got.Some? ==> slot < |pools[curpool].useCnt| && old(pools[curpool].useCnt[slot].holders) == {}
      ensures got.Some? ==> fresh(got.value) && got.value.counter == pools[curpool].useCnt[slot]
      ensures got.Some? ==> got.value.counter.holders == {got.value} && IsSlot(got.value, slot)
    {
      hide AllValid, Distinct, Apart;
      got, slot := GetFrom(curpool);
      if got.None? {
        curpool := curpool + 1;
        if curpool == |pools| {
          curpool := 0;
        }
      }
    }

    method AddPool()
      requires Valid()
      modifies this
      ensures Valid() && |pools| == |old(pools)| + 1 && pools[..|pools| - 1] == old(pools) && curpool == |pools| - 1
      ensures fresh(pools[curpool]) && fresh(pools[curpool].useCnt) && !pools[curpool].Full()
      ensures counters == old(counters) + set c | c in pools[curpool].useCnt
    {
      var pool := new Pool(blockSize, nblockPerPool);
      pools := pools + [pool];
      curpool := |pools| - 1;
      counters := counters + set c | c in pool.useCnt;
      assert pool.useCnt[0].holders == {};
    }
  }

  // ---------- retired pools ----------

  ghost predicate AllFree(use: seq<Counter>)
    reads use
  {
    forall i | 0 <= i < |use| :: use[i].holders == {}
  }

  ghost function Uses(use: seq<Counter>): nat
    reads use
  {
    if use == [] then 0 else Uses(use[..|use| - 1]) + use[|use| - 1].count
  }

  lemma {:induction false} NoUses(use: seq<Counter>)
    requires AllValid(use)
    ensures Uses(use) == 0 <==> AllFree(use)
  {
    if use != [] {
      NoUses(use[..|use| - 1]);
      assert forall i | 0 <= i < |use| - 1 :: use[..|use| - 1][i] == use[i];
      assert use[|use| - 1].count == 0 <==> use[|use| - 1].holders == {};
    }
  }

  /** The blocks that refer to any of the counters. */
  ghost function LiveBlocks(use: seq<Counter>): set<Block>
    reads use
  {
    set i, b | 0 <= i < |use| && b in use[i].holders :: b
  }

  /** The counters add up to the number of live blocks. */
  lemma {:induction false} UsesAreBlocks(use: seq<Counter>)
    requires AllValid(use) && Distinct(use)
    ensures Uses(use) == |LiveBlocks(use)|
  {
    if use != [] {
      var init, last := use[..|use| - 1], use[|use| - 1];
      UsesAreBlocks(init);
      LastBlocks(use);
    }
  }

  lemma LastBlocks(use: seq<Counter>)
    requires use != [] && AllValid(use) && Distinct(use)
    ensures var init, last := use[..|use| - 1], use[|use| - 1];
      |LiveBlocks(use)| == |LiveBlocks(init)| + |last.holders|
  {
    var init, last := use[..|use| - 1], use[|use| - 1];
    forall b | b in LiveBlocks(use)
      ensures b in LiveBlocks(init) + last.holders
    {
      var i :| 0 <= i < |use| && b in use[i].holders;
      assert i < |init| ==> b in init[i].holders;
    }
    forall b | b in LiveBlocks(init)
      ensures b in LiveBlocks(use) && b !in last.holders
    {
      var i :| 0 <= i < |init| && b in init[i].holders;
      assert b in use[i].holders && use[i] != last;
    }
    assert last.holders <= LiveBlocks(use);
    assert LiveBlocks(use) == LiveBlocks(init) + last.holders && LiveBlocks(init) !! last.holders;
  }

  /** The memory of a pool that has been given up; it counts the attempts to release it. */
  class Garbage {
    const useCnt: seq<Counter>
    var tryCount: nat
    var released: bool

    constructor (pool: Pool)
      ensures useCnt == pool.useCnt && !released
    {
      useCnt := pool.useCnt;
      tryCount := 0;
      released := false;
    }

    /** Releases the memory exactly when no live block refers to any of it, unless the uses, which are added up in 32
        bits, come to a multiple of 2^32. */
    method TryDelete() returns (deleted: bool)
      requires AllValid(useCnt)
      modifies this
      ensures deleted <==> AllFree(useCnt) || Uses(useCnt) % UINT_SIZE == 0
      ensures released <==> old(released) || deleted
    {
      tryCount := tryCount + 1;
      NoUses(useCnt);
      hide AllValid, Uses, AllFree;
      var usecount := SumUses();
      if usecount == 0 {
        released := true;
      }
      return usecount == 0;
    }

    method SumUses() returns (usecount: nat)
      ensures usecount == Uses(useCnt) % UINT_SIZE
    {
      usecount := 0;
      for i := 0 to |useCnt|
        invariant usecount == Uses(useCnt[..i]) % UINT_SIZE
      {
        assert useCnt[..i + 1][..i] == useCnt[..i];
        usecount := (usecount + useCnt[i].count) % UINT_SIZE;
      }
      assert useCnt[..|useCnt|] == useCnt;
    }
  }

  /** What stays of a list when the marked elements are erased. */
  function Erased(can: seq<Garbage>, marks: seq<bool>): (r: seq<Garbage>)
    requires |can| == |marks|
  {
    if can == [] then []
    else
      var n := |can| - 1;
      Erased(can[..n], marks[..n]) + if marks[n] then [] else [can[n]]
  }

  lemma ErasedNothing()
    ensures Erased([], []) == []
  {
  }

  lemma ErasedMore(can: seq<Garbage>, i: nat, marks: seq<bool>, mark: bool)
    requires i < |can| && |marks| == i
    ensures Erased(can[..i + 1], marks + [mark]) == Erased(can[..i], marks) + if mark then [] else [can[i]]
  {
    assert can[..i + 1][..i] == can[..i] && (marks + [mark])[..i] == marks;
  }

  class GarbageCan {
    var can: seq<Garbage>

    /** Every retired pool without live blocks is released and leaves the can; every other one stays, unless its uses
        come to a multiple of 2^32. */
    method CheckGarbage() returns (deleted: seq<bool>)
      requires forall g | g in can :: AllValid(g.useCnt)
      modifies this, can
      ensures |deleted| == |old(can)| && can == Erased(old(can), deleted)
      ensures forall i | 0 <= i < |deleted| ::
        deleted[i] <==> AllFree(old(can)[i].useCnt) || Uses(old(can)[i].useCnt) % UINT_SIZE == 0
      ensures forall i | 0 <= i < |deleted| && deleted[i] :: old(can)[i].released
    {
      hide AllValid, Uses, AllFree, Erased;
      deleted := [];
      ErasedNothing();
      var left: seq<Garbage> := [];
      ghost var all := can;
      for i := 0 to |can|
        invariant can == all && |deleted| == i && left == Erased(all[..i], deleted)
        invariant forall j | 0 <= j < i ::
          deleted[j] <==> AllFree(all[j].useCnt) || Uses(all[j].useCnt) % UINT_SIZE == 0
        invariant forall j | 0 <= j < i && deleted[j] :: all[j].released
      {
        var gone := can[i].TryDelete();
        ErasedMore(all, i, deleted, gone);
        deleted := deleted + [gone];
        if !gone {
          left := left + [can[i]];
        }
      }
      assert all[..|all|] == all;
      can := left;
    }
  }
}
