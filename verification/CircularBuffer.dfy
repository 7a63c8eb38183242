/** The overwriting circular buffer: pushing never fails, it drops the oldest elements. */
module CircularBuffers {

  datatype Result<T> = Ok(value: T) | NotEnoughElements

  /** The last n elements of s, or all of it. */
  function LastOf<T>(s: seq<T>, n: nat): seq<T> {
    if |s| <= n then s else s[|s| - n..]
  }

  function Min(a: int, b: int): int {
    if a < b then a else b
  }

  /** Position x of a ring of cap places, for x less than two rounds. */
  function Pos(cap: int, x: int): int {
    if x >= cap then x - cap else x
  }

  /** The element i places after position r. */
  function RingAt<T>(els: seq<T>, cap: int, r: int, i: int): T
    requires 0 <= r <= cap < |els| && 0 <= i < cap
  {
    els[Pos(cap, r + i)]
  }

  /** n elements of a ring from position r on. */
  function Ring<T>(els: seq<T>, cap: int, r: int, n: int): (s: seq<T>)
    requires 0 <= n <= cap < |els| && 0 <= r <= cap
    ensures |s| == n && forall i | 0 <= i < n :: s[i] == RingAt(els, cap, r, i)
  {
    seq(n, i requires 0 <= i < n => RingAt(els, cap, r, i))
  }

  /** The write pointer w is n places after the read pointer r; both may be parked at cap instead of 0. */
  predicate Meets(cap: int, r: int, n: int, w: int) {
    && 0 <= r <= cap && 0 <= w <= cap
    && (w == r + n || w == r + n - cap || w == r + n + cap || w == r + n - 2 * cap)
  }

  /** now is els with src written from position w on. */
  ghost predicate Written<T>(els: seq<T>, now: seq<T>, cap: int, w: int, src: seq<T>)
    requires 0 <= w <= cap < |els| == |now| && |src| <= cap
  {
    && (forall j | 0 <= j < |src| :: RingAt(now, cap, w, j) == src[j])
    && (forall j | |src| <= j < cap :: RingAt(now, cap, w, j) == RingAt(els, cap, w, j))
  }

  lemma LastAt<T>(all: seq<T>, cap: int, s: seq<T>)
    requires cap >= 0 && |s| == Min(cap, |all|) && forall i | 0 <= i < |s| :: s[i] == all[|all| - |s| + i]
    ensures s == LastOf(all, cap)
  {
  }

  /** Where element i is after writing m elements. */
  lemma SamePlace(cap: int, r: int, n: int, w: int, m: int, i: int)
    requires 0 <= n <= cap && 0 <= m <= cap && Meets(cap, r, n, w)
    requires 0 <= i < Min(cap, n + m)
    ensures var r' := if n + m <= cap then r else if w + m > cap then w + m - cap else w + m;
      var k := n + m - Min(cap, n + m) + i;
      if k < n then Pos(cap, r + k) == Pos(cap, w + (cap - n + k)) == Pos(cap, r' + i)
      else Pos(cap, r' + i) == Pos(cap, w + (k - n))
  {
  }

  lemma WrittenAt<T>(els: seq<T>, now: seq<T>, cap: int, r: int, n: int, w: int, src: seq<T>, i: int)
    requires 0 <= n <= cap < |els| == |now| && |src| <= cap && Meets(cap, r, n, w)
    requires Written(els, now, cap, w, src) && 0 <= i < Min(cap, n + |src|)
    ensures var r' := if n + |src| <= cap then r else if w + |src| > cap then w + |src| - cap else w + |src|;
      var k := n + |src| - Min(cap, n + |src|) + i;
      RingAt(now, cap, r', i) == if k < n then RingAt(els, cap, r, k) else src[k - n]
  {
    var k := n + |src| - Min(cap, n + |src|) + i;
    SamePlace(cap, r, n, w, |src|, i);
    hide Meets, Pos;
    if k < n {
      assert RingAt(now, cap, w, cap - n + k) == RingAt(els, cap, w, cap - n + k);
    } else {
      assert RingAt(now, cap, w, k - n) == src[k - n];
    }
  }

  /** Writing appends, at the cost of the oldest elements. */
  lemma WrittenRing<T>(els: seq<T>, now: seq<T>, cap: int, r: int, n: int, w: int, src: seq<T>)
    requires 0 <= n <= cap < |els| == |now| && |src| <= cap && Meets(cap, r, n, w)
    requires Written(els, now, cap, w, src)
    ensures var w' := if w + |src| > cap then w + |src| - cap else w + |src|;
      var r', n' := if n + |src| > cap then w' else r, Min(cap, n + |src|);
      Meets(cap, r', n', w') && Ring(now, cap, r', n') == LastOf(Ring(els, cap, r, n) + src, cap)
  {
    var w' := if w + |src| > cap then w + |src| - cap else w + |src|;
    var r', n' := if n + |src| > cap then w' else r, Min(cap, n + |src|);
    var all, s := Ring(els, cap, r, n) + src, Ring(now, cap, r', n');
    hide RingAt, Written, Pos;
    forall i | 0 <= i < n'
      ensures s[i] == all[|all| - n' + i]
    {
      WrittenAt(els, now, cap, r, n, w, src, i);
    }
    LastAt(all, cap, s);
    hide Ring, LastOf;
  }

  class CircularBuffer<T(0)> {

    const capacity: int
    const elements: array<T>
    var nelements: int
    var readPtr: int
    var writePtr: int

    /** Both pointers may be parked at the capacity instead of having gone back to 0. */
    ghost predicate Valid()
      reads this
    {
      0 <= nelements <= capacity < elements.Length && Meets(capacity, readPtr, nelements, writePtr)
    }

    ghost function Contents(): (s: seq<T>)
      requires Valid()
      reads this, elements
    {
      Ring(elements[..], capacity, readPtr, nelements)
    }

    constructor (n: nat)
      ensures Valid() && Contents() == [] && capacity == n && fresh(elements)
    {
      capacity := n;
      nelements := 0;
      elements := new T[n + 1];
      readPtr, writePtr := 0, 0;
    }

    constructor Copy(other: CircularBuffer<T>)
      requires other.Valid()
      ensures Valid() && Contents() == other.Contents() && capacity == other.capacity && fresh(elements)
    {
      capacity := other.capacity;
      nelements := other.nelements;
      elements := new T[other.capacity + 1];
      readPtr, writePtr := other.readPtr, other.writePtr;
      new;
      for i := 0 to capacity
        invariant nelements == other.nelements && readPtr == other.readPtr && writePtr == other.writePtr
        invariant forall j | 0 <= j < i :: elements[j] == other.elements[j]
      {
        elements[i] := other.elements[i];
      }
      assert forall i | 0 <= i < nelements :: Contents()[i] == other.Contents()[i];
    }

    method Clear()
      requires Valid()
      modifies this
      ensures Valid() && Contents() == []
    {
      readPtr, writePtr, nelements := 0, 0, 0;
    }

    /** Takes the first n elements out; refused, with nothing changed, when there are fewer. */
    method Pop(n: nat) returns (r: Result<seq<T>>)
      requires Valid()
      modifies this
      ensures Valid()
      ensures if n > old(nelements) then r.NotEnoughElements? && Contents() == old(Contents())
              else r == Ok(old(Contents())[..n]) && Contents() == old(Contents())[n..]
    {
      if n > nelements {
        return NotEnoughElements;
      }
      var readToEnd := Min(capacity - readPtr, n);
      var readFromBegin := n - readToEnd;
      var b := elements[readPtr..readPtr + readToEnd] + elements[..readFromBegin];
      assert b == Contents()[..n];
      readPtr := if readPtr + n > capacity then readFromBegin else readPtr + n;
      nelements := nelements - n;
      return Ok(b);
    }

    /** Appends ptr; of everything then held only the last capacity elements stay. */
    method Push(ptr: seq<T>)
      requires Valid()
      modifies this, elements
      ensures Valid() && Contents() == LastOf(old(Contents()) + ptr, capacity)
    {
      var skip := if |ptr| < capacity then 0 else |ptr| - capacity;
      if skip != 0 {
        readPtr, writePtr, nelements := 0, 0, 0;
      }
      ghost var kept := Contents();
      PushLast(ptr[skip..]);
      assert LastOf(kept + ptr[skip..], capacity) == LastOf(old(Contents()) + ptr, capacity);
    }

    method PushLast(ptr: seq<T>)
      requires Valid() && |ptr| <= capacity
      modifies this, elements
      ensures Valid() && Contents() == LastOf(old(Contents()) + ptr, capacity)
    {
      hide Ring, RingAt, Written, LastOf;
      var ncpy := |ptr|;
      var nFromBegin := WriteAround(ptr);
      WrittenRing(old(elements[..]), elements[..], capacity, readPtr, nelements, writePtr, ptr);
      nelements := nelements + ncpy;
      writePtr := if writePtr + ncpy > capacity then nFromBegin else writePtr + ncpy;
      readPtr := if nelements > capacity then writePtr else readPtr;
      nelements := Min(capacity, nelements);
    }

    /** Copies ptr in from the write pointer on, going on at the beginning. */
    method WriteAround(ptr: seq<T>) returns (nFromBegin: int)
      requires Valid() && |ptr| <= capacity
      modifies elements
      ensures writePtr + |ptr| > capacity ==> nFromBegin == writePtr + |ptr| - capacity
      ensures Written(old(elements[..]), elements[..], capacity, writePtr, ptr)
    {
      var nToEnd := Min(capacity - writePtr, |ptr|);
      nFromBegin := |ptr| - nToEnd;
      CopyIn(writePtr, ptr[..nToEnd]);
      CopyIn(0, ptr[nToEnd..]);
      assert forall j | 0 <= j < |ptr| :: RingAt(elements[..], capacity, writePtr, j) == ptr[j];
    }

    method CopyIn(at: nat, src: seq<T>)
      requires at + |src| <= elements.Length
      modifies elements
      ensures forall k | 0 <= k < elements.Length ::
        elements[k] == if at <= k < at + |src| then src[k - at] else old(elements[k])
    {
      for i := 0 to |src|
        invariant forall k | 0 <= k < elements.Length ::
          elements[k] == if at <= k < at + i then src[k - at] else old(elements[k])
      {
        elements[at + i] := src[i];
      }
    }

    /** Element idx from the front, or from the back when idx is negative. */
    method Get(idx: int) returns (r: Result<T>)
      requires Valid()
      ensures if 0 <= idx < nelements then r == Ok(Contents()[idx])
              else if -nelements <= idx < 0 then r == Ok(Contents()[nelements + idx])
              else r.NotEnoughElements?
    {
      var absidx := if idx < 0 then -idx else idx;
      if (idx >= 0 && absidx >= nelements) || (idx < 0 && absidx > nelements) {
        return NotEnoughElements;
      }
      var lidx :=
        if idx >= 0 then (if absidx + readPtr >= capacity then absidx + readPtr - capacity else absidx + readPtr)
        else if absidx > writePtr then capacity - absidx + writePtr else writePtr - absidx;
      return Ok(elements[lidx]);
    }
  }
}
