/** The sender's loss list: a set of packet counters kept as linked intervals in a circular table. */
module SndLossLists {
  import opened SeqNo
  import opened Intervals
  import opened LossTables

  class SndLossList {
    const size: int
    const data1: array<int>   // first sequence number of the interval in a slot, -1 when the slot is empty
    const data2: array<int>   // last sequence number, -1 when the interval is a single number
    const next: array<int>    // slot of the following interval, -1 at the end
    var head: int
    var length: int
    var lastInsertPos: int

    ghost var nodes: map<int, Node>

    ghost predicate Arrays()
      reads this
    {
      && 0 < size < SEQ_TH
      && data1.Length == size && data2.Length == size && next.Length == size
      && data1 != data2 && data1 != next && data2 != next
    }

    ghost predicate Valid()
      reads this, data1, data2, next
    {
      ValidFrom(head)
    }

    /** The list is in order when it is read from slot h. */
    ghost predicate ValidFrom(h: int)
      reads this, data1, data2, next
    {
      && Arrays() && Placed(nodes, size) && Disjoint(nodes)
      && Stored(data1[..], data2[..], nodes) && Linked(next[..], nodes, h)
      && length == |Cover(nodes)|
      && (lastInsertPos == -1 || lastInsertPos in nodes)
    }

    /** The set the list stands for. */
    ghost function Contents(): set<int>
      reads this
    {
      Cover(nodes)
    }

    /** As Valid, except that the interval in slot loc may overlap the ones after it and is counted in full. */
    ghost predicate Loose(loc: int)
      reads this, data1, data2, next
    {
      && Arrays() && Placed(nodes, size) && loc in nodes && DisjointUpTo(nodes, loc)
      && Stored(data1[..], data2[..], nodes) && Linked(next[..], nodes, head)
      && length == |Cover(nodes - {loc})| + nodes[loc].hi - nodes[loc].lo + 1
      && lastInsertPos == loc
    }

    /** How many numbers are listed. */
    function GetLossLength(): (r: int)
      requires Valid()
      reads this, data1, data2, next
      ensures r == |Contents()|
    {
      length
    }

    constructor (size: int)
      requires 0 < size < SEQ_TH
      ensures Valid() && Contents() == {} && this.size == size
      ensures fresh(data1) && fresh(data2) && fresh(next)
    {
      this.size := size;
      data1 := new int[size](_ => -1);
      data2 := new int[size](_ => -1);
      next := new int[size];
      head, length, lastInsertPos := -1, 0, -1;
      nodes := map[];
      new;
      assert Cover(nodes) == {};
    }

    /** Adds the sequence numbers seqno1 to seqno2, which stand for the counters a to b, and returns how many
        of them are new. */
    method Insert(seqno1: int, seqno2: int, ghost a: int, ghost b: int) returns (added: int)
      requires Valid() && a <= b < a + size && seqno1 == Wrap(a) && seqno2 == Wrap(b)
      requires forall x | x in Contents() :: x - a < size && b - x < size
      modifies this, data1, data2, next
      ensures Valid() && Contents() == old(Contents()) + Range(a, b)
      ensures added == |Range(a, b) - old(Contents())|
    {
      hide Placed, Disjoint, Stored, Linked, DisjointUpTo, Follows, Cover, Range, Wrap, Aligned;
      EmptyCover(nodes, size);
      assert Contents() == Cover(nodes);
      RoomToInsert(nodes, Node(a, b), size);
      CountNew(Contents(), a, b);
      if length == 0 {
        InsertFirst(seqno1, seqno2, Node(a, b));
        return length;
      }
      added := InsertMore(seqno1, seqno2, Node(a, b));
    }

    /** Inserts into a list that is not empty. */
    method InsertMore(seqno1: int, seqno2: int, ghost n: Node) returns (added: int)
      requires Valid() && nodes != map[] && seqno1 == Wrap(n.lo) && seqno2 == Wrap(n.hi)
      requires Roomy(nodes, n, size)
      modifies this, data1, data2, next
      ensures Valid() && Contents() == old(Contents()) + Range(n.lo, n.hi)
      ensures added == |Contents()| - |old(Contents())|
    {
      hide Placed, Disjoint, Stored, Linked, DisjointUpTo, Follows, Cover, Range, Wrap, Aligned;
      var origlen := length;
      HeadInTable(next[..], nodes, head);
      ReadSlot(data1[..], data2[..], next[..], nodes, head, head, size);
      WrapCompare(nodes[head].lo, n.lo);
      var offset := SeqOff(data1[head], seqno1);
      var loc := CRem(head + offset + size, size);
      SlotOf(nodes, head, n.lo, loc, size);
      var covered := false;
      if offset < 0 {
        PutHead(loc, seqno1, seqno2, n);
      } else if offset > 0 {
        loc, covered := InsertLater(loc, seqno1, seqno2, n);
      } else {
        covered := InsertAtHead(loc, seqno1, seqno2, n);
      }
      if covered {
        return 0;
      }
      Coalesce(loc);
      return length - origlen;
    }

    /** Inserts an interval that starts where the first one does. */
    method InsertAtHead(loc: int, seqno1: int, seqno2: int, ghost n: Node) returns (covered: bool)
      requires Valid() && seqno1 == Wrap(n.lo) && seqno2 == Wrap(n.hi) && Roomy(nodes, n, size)
      requires head in nodes && loc == head && nodes[head].lo == n.lo
      modifies this, data1, data2, next
      ensures if covered then Valid() else Loose(loc)
      ensures Contents() == old(Contents()) + Range(n.lo, n.hi)
      ensures covered ==> Contents() == old(Contents())
    {
      hide Placed, Disjoint, Stored, Linked, DisjointUpTo, Follows, Cover, Range, Wrap, Aligned;
      lastInsertPos := head;
      ReadSlot(data1[..], data2[..], next[..], nodes, head, loc, size);
      WrapCompare(n.lo, n.hi);
      WrapCompare(n.hi, nodes[loc].hi);
      if seqno2 != seqno1 {
        if data2[loc] == -1 {
          Extend(loc, seqno2, n, n.lo);
          return false;
        } else if SeqCmp(seqno2, data2[loc]) > 0 {
          Extend(loc, seqno2, n, n.lo);
          return false;
        }
      }
      NothingNew(nodes, loc, n.lo, n.hi);
      return true;
    }

    /** Inserts into an empty list. */
    method InsertFirst(seqno1: int, seqno2: int, ghost n: Node)
      requires Valid() && nodes == map[] && n.lo <= n.hi < n.lo + size
      requires seqno1 == Wrap(n.lo) && seqno2 == Wrap(n.hi)
      modifies this, data1, data2, next
      ensures Valid() && Contents() == old(Contents()) + Range(n.lo, n.hi)
    {
      hide Placed, Disjoint, Stored, Linked, DisjointUpTo, Follows, Cover, Range, Wrap, Aligned;
      PutFirstStep(data1[..], data2[..], next[..], nodes, head, n, size);
      head := 0;
      WriteNode(0, seqno1, seqno2, n);
      next[head] := -1;
      lastInsertPos := head;
      nodes := map[0 := n];
    }

    /** Inserts an interval that starts after the first one. Unless all of it is there already, the interval
        that now holds it is in slot loc'. */
    method InsertLater(loc: int, seqno1: int, seqno2: int, ghost n: Node) returns (loc': int, covered: bool)
      requires Valid() && n.lo <= n.hi < n.lo + size && seqno1 == Wrap(n.lo) && seqno2 == Wrap(n.hi)
      requires head in nodes && nodes[head].lo < n.lo && 0 <= loc < size
      requires forall m | m in nodes :: Aligned(loc, m, n.lo - nodes[m].lo, size)
      requires loc in nodes ==> nodes[loc].lo == n.lo
      requires forall m | m in nodes && nodes[m].lo == n.lo :: m == loc
      requires Roomy(nodes, n, size)
      modifies this, data1, data2, next
      ensures if covered then Valid() else Loose(loc')
      ensures Contents() == old(Contents()) + Range(n.lo, n.hi)
      ensures covered ==> Contents() == old(Contents())
    {
      hide Placed, Disjoint, Stored, Linked, DisjointUpTo, Follows, Cover, Range, Wrap, Aligned;
      loc', covered := loc, false;
      WrapCompare(n.lo, n.hi);
      if loc in nodes {
        ReadSlot(data1[..], data2[..], next[..], nodes, head, loc, size);
        WrapCompare(n.hi, nodes[loc].hi);
      } else {
        ReadEmpty(data1[..], data2[..], nodes, loc);
      }
      if seqno1 == data1[loc] {
        lastInsertPos := loc;
        if data2[loc] == -1 {
          if seqno2 != seqno1 {
            Extend(loc, seqno2, n, n.lo);
          } else {
            ExtendStep(data1[..], data2[..], next[..], nodes, head, loc, n, n.lo, size);
            assert nodes[loc := n] == nodes;
          }
        } else if SeqCmp(seqno2, data2[loc]) > 0 {
          Extend(loc, seqno2, n, n.lo);
        } else {
          NothingNew(nodes, loc, n.lo, n.hi);
          covered := true;
        }
      } else {
        var i := FindPrior(seqno1, n.lo);
        ReadSlot(data1[..], data2[..], next[..], nodes, head, i, size);
        WrapCompare(nodes[i].hi, n.lo);
        WrapCompare(nodes[i].hi, n.hi);
        if data2[i] == -1 || SeqCmp(data2[i], seqno1) < 0 {
          PutAfter(i, loc, seqno1, seqno2, n);
        } else {
          lastInsertPos := i;
          if SeqCmp(data2[i], seqno2) < 0 {
            Extend(i, seqno2, Node(nodes[i].lo, n.hi), n.lo);
            loc' := i;
          } else {
            NothingNew(nodes, i, n.lo, n.hi);
            covered := true;
          }
        }
      }
    }

    /** Finds the last interval that starts before counter a, from where the last insertion was if possible. */
    method FindPrior(seqno1: int, ghost a: int) returns (i: int)
      requires Valid() && seqno1 == Wrap(a) && head in nodes && nodes[head].lo < a
      requires forall m | m in nodes :: -SEQ_TH < nodes[m].lo - a < SEQ_TH
      ensures i in nodes && 0 <= i < size && nodes[i].lo < a
      ensures next[i] == -1 || (next[i] in nodes && a <= nodes[next[i]].lo)
    {
      hide Placed, Disjoint, Stored, Linked, DisjointUpTo, Follows, Cover, Range, Wrap, Aligned, Cut, Split;
      i := head;
      if lastInsertPos != -1 {
        ReadSlot(data1[..], data2[..], next[..], nodes, head, lastInsertPos, size);
        WrapCompare(nodes[lastInsertPos].lo, a);
        if SeqCmp(data1[lastInsertPos], seqno1) < 0 {
          i := lastInsertPos;
        }
      }
      i := Advance(i, seqno1, a);
    }

    /** Follows the links from slot start to the last interval that starts before counter a. */
    method Advance(start: int, seqno1: int, ghost a: int) returns (i: int)
      requires Valid() && seqno1 == Wrap(a) && start in nodes && nodes[start].lo < a
      requires forall m | m in nodes :: -SEQ_TH < nodes[m].lo - a < SEQ_TH
      ensures i in nodes && 0 <= i < size && nodes[i].lo < a
      ensures next[i] == -1 || (next[i] in nodes && a <= nodes[next[i]].lo)
    {
      hide Placed, Disjoint, Stored, Linked, DisjointUpTo, Follows, Cover, Range, Wrap, Aligned, Cut, Split;
      i := start;
      ReadSlot(data1[..], data2[..], next[..], nodes, head, i, size);
      while next[i] != -1
        invariant i in nodes && 0 <= i < size && nodes[i].lo < a
        decreases a - nodes[i].lo
      {
        ReadSlot(data1[..], data2[..], next[..], nodes, head, i, size);
        FollowsFacts(nodes, i, next[i]);
        ReadSlot(data1[..], data2[..], next[..], nodes, head, next[i], size);
        WrapCompare(nodes[next[i]].lo, a);
        if SeqCmp(data1[next[i]], seqno1) >= 0 {
          return;
        }
        i := next[i];
      }
    }

    /** Inserts an interval that starts before all others. */
    method PutHead(loc: int, seqno1: int, seqno2: int, ghost n: Node)
      requires Valid() && n.lo <= n.hi < n.lo + size && seqno1 == Wrap(n.lo) && seqno2 == Wrap(n.hi)
      requires head in nodes && n.lo < nodes[head].lo && 0 <= loc < size && loc !in nodes
      requires forall m | m in nodes :: Aligned(loc, m, n.lo - nodes[m].lo, size)
      requires Roomy(nodes, n, size)
      modifies this, data1, data2, next
      ensures Loose(loc) && Contents() == old(Contents()) + Range(n.lo, n.hi)
    {
      hide Placed, Disjoint, Stored, Linked, DisjointUpTo, Cover, Range, Wrap, Aligned;
      PutHeadStep(data1[..], data2[..], next[..], nodes, head, loc, n, size);
      WriteNode(loc, seqno1, seqno2, n);
      next[loc] := head;
      head := loc;
      lastInsertPos := loc;
      nodes := nodes[loc := n];
    }

    /** Inserts an interval between the one in slot i and its successor. */
    method PutAfter(i: int, loc: int, seqno1: int, seqno2: int, ghost n: Node)
      requires Valid() && n.lo <= n.hi < n.lo + size && seqno1 == Wrap(n.lo) && seqno2 == Wrap(n.hi)
      requires i in nodes && 0 <= i < size && nodes[i].hi < n.lo && 0 <= loc < size && loc !in nodes
      requires next[i] == -1 || (next[i] in nodes && n.lo < nodes[next[i]].lo)
      requires forall m | m in nodes :: Aligned(loc, m, n.lo - nodes[m].lo, size)
      requires Roomy(nodes, n, size)
      modifies this, data1, data2, next
      ensures Loose(loc) && Contents() == old(Contents()) + Range(n.lo, n.hi)
    {
      hide Placed, Disjoint, Stored, Linked, DisjointUpTo, Cover, Range, Wrap, Aligned;
      PutAfterStep(data1[..], data2[..], next[..], nodes, head, i, loc, n, size);
      lastInsertPos := loc;
      WriteNode(loc, seqno1, seqno2, n);
      next[loc] := next[i];
      next[i] := loc;
      nodes := nodes[loc := n];
    }

    /** Fills an empty slot. */
    method WriteNode(loc: int, seqno1: int, seqno2: int, ghost n: Node)
      requires Arrays() && 0 <= loc < size && data2[loc] == -1
      requires n.lo <= n.hi < n.lo + size && seqno1 == Wrap(n.lo) && seqno2 == Wrap(n.hi)
      modifies this`length, data1, data2
      ensures data1[..] == old(data1[..])[loc := Wrap(n.lo)]
      ensures data2[..] == old(data2[..])[loc := SecondOf(n)]
      ensures length == old(length) + n.hi - n.lo + 1
    {
      WrapLength(n.lo, n.hi);
      WrapCompare(n.lo, n.hi);
      data1[loc] := seqno1;
      if seqno2 != seqno1 {
        data2[loc] := seqno2;
      }
      length := length + SeqLen(seqno1, seqno2);
    }

    /** Moves the end of the interval in slot i, which reaches a, up to n.hi. */
    method Extend(i: int, seqno2: int, ghost n: Node, ghost a: int)
      requires Valid() && i in nodes && 0 <= i < size && n.lo == nodes[i].lo && seqno2 == Wrap(n.hi)
      requires nodes[i].lo <= a <= nodes[i].hi <= n.hi && n.hi != nodes[i].lo
      requires forall m | m in nodes :: n.hi - nodes[m].lo < size
      modifies this, data2
      ensures Loose(i) && Contents() == old(Contents()) + Range(a, n.hi)
      ensures head == old(head)
    {
      hide Placed, Disjoint, Stored, Linked, DisjointUpTo, Cover, Range, Wrap, Aligned;
      ExtendStep(data1[..], data2[..], next[..], nodes, head, i, n, a, size);
      WriteEnd(i, seqno2, nodes[i], n);
      lastInsertPos := i;
      nodes := nodes[i := n];
    }

    method WriteEnd(i: int, seqno2: int, ghost was: Node, ghost n: Node)
      requires Arrays() && 0 <= i < size && data1[i] == Wrap(was.lo) && data2[i] == SecondOf(was)
      requires n.lo == was.lo <= was.hi <= n.hi < n.lo + size && n.hi != n.lo && seqno2 == Wrap(n.hi)
      modifies this`length, data2
      ensures data2[..] == old(data2[..])[i := SecondOf(n)]
      ensures length == old(length) + n.hi - was.hi
    {
      WrapLength(was.hi, n.hi);
      if data2[i] == -1 {
        length := length + SeqLen(data1[i], seqno2) - 1;
      } else {
        length := length + SeqLen(data2[i], seqno2) - 1;
      }
      data2[i] := seqno2;
    }

    /** Merges the interval in slot loc with the following ones that it overlaps or touches. */
    method Coalesce(loc: int)
      requires Loose(loc)
      modifies this, data1, data2, next
      ensures Valid() && Contents() == old(Contents())
      ensures head == old(head)
    {
      hide Placed, Disjoint, Stored, Linked, DisjointUpTo, Follows, Cover, Range, Wrap, Aligned;
      ReadSlot(data1[..], data2[..], next[..], nodes, head, loc, size);
      while next[loc] != -1 && data2[loc] != -1
        invariant 0 <= loc < size && Loose(loc) && Contents() == old(Contents()) && head == old(head)
        decreases |nodes|
      {
        var i := next[loc];
        ReadSlot(data1[..], data2[..], next[..], nodes, head, loc, size);
        FollowsFacts(nodes, loc, i);
        ReadSlot(data1[..], data2[..], next[..], nodes, head, i, size);
        NearBy(nodes, loc, i, size);
        WrapStep(nodes[loc].hi);
        WrapCompare(nodes[i].lo, nodes[loc].hi + 1);
        if SeqCmp(data1[i], IncSeq(data2[loc])) > 0 {
          break;
        }
        MergeNext(loc, i);
      }
      ReadSlot(data1[..], data2[..], next[..], nodes, head, loc, size);
      FollowsFacts(nodes, loc, next[loc]);
      SettledShape(nodes, loc, next[loc]);
    }

    /** One round of the coalescing loop. */
    method MergeNext(loc: int, i: int)
      requires Loose(loc) && 0 <= loc < size && next[loc] == i && i in nodes && i != -1
      requires nodes[loc].lo < nodes[loc].hi && nodes[i].lo <= nodes[loc].hi + 1
      modifies this, data1, data2, next
      ensures Loose(loc) && Cover(nodes) == old(Cover(nodes)) && head == old(head) && |nodes| < old(|nodes|)
    {
      hide Placed, Disjoint, Stored, Linked, DisjointUpTo, Cover, Range, Wrap, Aligned;
      MergeStep(data1[..], data2[..], next[..], nodes, head, loc, i, size);
      Absorb(loc, i, nodes[loc], nodes[i]);
      nodes := Merged(nodes, loc, i);
    }

    /** Adds the interval in slot i to the one in slot loc and empties slot i. */
    method Absorb(loc: int, i: int, ghost cur: Node, ghost nxt: Node)
      requires Arrays() && 0 <= loc < size && 0 <= i < size && i != loc
      requires data2[loc] == Wrap(cur.hi) && data1[i] == Wrap(nxt.lo) && data2[i] == SecondOf(nxt)
      requires cur.lo < cur.hi && cur.lo < nxt.lo <= cur.hi + 1 && nxt.lo <= nxt.hi
      requires nxt.hi - cur.lo < size && cur.hi - cur.lo < size
      modifies this`length, data1, data2, next
      ensures data1[..] == old(data1[..])[i := -1]
      ensures data2[..] == old(data2[..])[loc := Wrap(MergedNode(cur, nxt).hi)][i := -1]
      ensures next[..] == old(next[..])[loc := old(next[i])]
      ensures length == old(length) - (cur.hi - cur.lo + 1) - (nxt.hi - nxt.lo + 1)
                        + (MergedNode(cur, nxt).hi - cur.lo + 1)
    {
      WrapStep(cur.hi);
      WrapCompare(nxt.lo, cur.hi + 1);
      WrapCompare(nxt.hi, cur.hi);
      WrapCompare(cur.hi, nxt.lo);
      if data2[i] != -1 {
        if SeqCmp(data2[i], data2[loc]) > 0 {
          if SeqCmp(data2[loc], data1[i]) >= 0 {
            WrapLength(nxt.lo, cur.hi);
            length := length - SeqLen(data1[i], data2[loc]);
          }
          data2[loc] := data2[i];
        } else {
          WrapLength(nxt.lo, nxt.hi);
          length := length - SeqLen(data1[i], data2[i]);
        }
      } else {
        if data1[i] == IncSeq(data2[loc]) {
          data2[loc] := data1[i];
        } else {
          length := length - 1;
        }
      }
      data1[i] := -1;
      data2[i] := -1;
      next[loc] := next[i];
    }

    /** Takes the smallest sequence number, the counter a, off the list. */
    method RemoveHead(seqno: int, ghost a: int)
      requires Valid() && head in nodes && nodes[head].lo == a && seqno == Wrap(a)
      modifies this, data1, data2, next
      ensures Valid() && Contents() == old(Contents()) - {a}
    {
      hide Placed, Disjoint, Stored, Linked, DisjointUpTo, Follows, Cover, Range, Wrap, Aligned, Cut, Split;
      if lastInsertPos == head {
        lastInsertPos := -1;
      }
      ReadSlot(data1[..], data2[..], next[..], nodes, head, head, size);
      if data2[head] == -1 {
        DropHead(a);
      } else {
        ShiftStep(data1[..], data2[..], next[..], nodes, head, (head + 1) % size, size);
        SplitKeys(nodes, head, (head + 1) % size, a);
        ghost var after := Split(nodes, head, (head + 1) % size, a) - {head};
        ShiftHead(seqno, nodes[head]);
        length := length - 1;
        nodes := after;
      }
    }

    method DropHead(ghost a: int)
      requires Valid() && head in nodes && nodes[head].lo == a && data2[head] == -1 && lastInsertPos != head
      modifies this, data1
      ensures Valid() && Contents() == old(Contents()) - {a}
    {
      hide Placed, Disjoint, Stored, Linked, DisjointUpTo, Follows, Cover, Range, Wrap, Aligned, Cut, Split;
      ReadSlot(data1[..], data2[..], next[..], nodes, head, head, size);
      DropStep(data1[..], data2[..], next[..], nodes, head, size);
      SingleRange(a);
      ghost var h := head;
      data1[head] := -1;
      assert data2[..][h := -1] == data2[..];
      head := next[head];
      length := length - 1;
      nodes := nodes - {h};
    }

    /** Moves the head on by one sequence number. */
    method ShiftHead(seqno: int, ghost n: Node)
      requires Arrays() && 0 <= head < size && seqno == Wrap(n.lo) && n.lo < n.hi < n.lo + size
      requires data2[head] == Wrap(n.hi) && data2[(head + 1) % size] == -1
      modifies this`head, data1, data2, next
      ensures var loc := (old(head) + 1) % size;
        && head == loc
        && data1[..] == old(data1[..])[loc := Wrap(n.lo + 1)][old(head) := -1]
        && data2[..] == old(data2[..])[loc := SecondOf(Node(n.lo + 1, n.hi))][old(head) := -1]
        && next[..] == old(next[..])[loc := old(next[head])]
    {
      var loc := (head + 1) % size;
      WrapStep(n.lo);
      WrapCompare(n.hi, n.lo + 1);
      data1[loc] := IncSeq(seqno);
      if SeqCmp(data2[head], data1[loc]) > 0 {
        data2[loc] := data2[head];
      }
      data1[head] := -1;
      data2[head] := -1;
      next[loc] := next[head];
      head := loc;
    }

    /** Removes every sequence number that is not after seqno, which stands for the counter a. */
    method Remove(seqno: int, ghost a: int)
      requires Valid() && seqno == Wrap(a)
      requires forall x | x in Contents() :: -SEQ_TH < x - a < SEQ_TH
      modifies this, data1, data2, next
      ensures Valid() && Contents() == Above(old(Contents()), a)
    {
      hide Placed, Disjoint, Stored, Linked, DisjointUpTo, Follows, Cover, Range, Wrap, Aligned, Cut, Split;
      EmptyCover(nodes, size);
      assert Contents() == Cover(nodes);
      NearCover(nodes, a, size);
      if length == 0 {
        NothingAbove(Contents(), a);
        return;
      }
      LeastIsHead(next[..], nodes, head, size);
      ReadSlot(data1[..], data2[..], next[..], nodes, head, head, size);
      WrapCompare(nodes[head].lo, a);
      var offset := SeqOff(data1[head], seqno);
      var loc := CRem(head + offset + size, size);
      if offset == 0 {
        AboveLeast(Contents(), a);
        RemoveHead(seqno, a);
      } else if offset > 0 {
        var h := head;
        CutAt(loc, seqno, a);
        Purge(h, a);
      } else {
        AllAbove(Contents(), a);
      }
    }

    /** Sets the head to the first interval above a, splitting the interval that a ends inside of. */
    method CutAt(slot: int, seqno: int, ghost a: int)
      requires Valid() && head in nodes && nodes[head].lo < a && seqno == Wrap(a)
      requires slot == (head + (a - nodes[head].lo) + size) % size && 0 <= slot < size
      requires forall m | m in nodes :: -SEQ_TH < nodes[m].lo - a < SEQ_TH && -SEQ_TH < nodes[m].hi - a < SEQ_TH
      modifies this, data1, data2, next
      ensures ValidFrom(old(head)) && Cut(nodes, head, a)
      ensures Contents() == old(Contents())
    {
      hide Placed, Disjoint, Stored, Linked, DisjointUpTo, Follows, Cover, Range, Wrap, Aligned, Cut, Split;
      if seqno == data1[slot] {
        var temp := slot;
        StartsHere(data1[..], data2[..], next[..], nodes, head, temp, a, size);
        ReadSlot(data1[..], data2[..], next[..], nodes, head, temp, size);
        var loc := (slot + 1) % size;
        if data2[temp] == -1 {
          FollowsFacts(nodes, temp, next[temp]);
          CutAfter(next[..], nodes, head, temp, a, size);
          head := next[temp];
        } else {
          NextSlotFree(nodes, temp, head, a, slot, loc, size);
          SplitNode(temp, loc, seqno, a);
        }
      } else {
        NotAStart(data1[..], data2[..], next[..], nodes, head, a, slot, size);
        var i := Advance(head, seqno, a);
        ReadSlot(data1[..], data2[..], next[..], nodes, head, i, size);
        WrapCompare(nodes[i].hi, a);
        var loc := (slot + 1) % size;
        if data2[i] == -1 {
          CutAfter(next[..], nodes, head, i, a, size);
          head := next[i];
        } else if SeqCmp(data2[i], seqno) > 0 {
          NextSlotFree(nodes, i, head, a, slot, loc, size);
          SplitNode(i, loc, seqno, a);
        } else {
          CutAfter(next[..], nodes, head, i, a, size);
          head := next[i];
        }
      }
    }

    /** Ends the interval in slot i at seqno and starts a new head interval behind it in slot loc. */
    method SplitNode(i: int, loc: int, seqno: int, ghost a: int)
      requires Valid() && i in nodes && 0 <= i < size && nodes[i].lo <= a < nodes[i].hi && seqno == Wrap(a)
      requires 0 <= loc < size && loc !in nodes
      requires forall m | m in nodes :: Aligned(loc, m, a + 1 - nodes[m].lo, size)
      modifies this, data1, data2, next
      ensures ValidFrom(old(head)) && Cut(nodes, head, a) && Contents() == old(Contents())
    {
      hide Placed, Disjoint, Stored, Linked, DisjointUpTo, Follows, Cover, Range, Wrap, Aligned, Cut, Split;
      ReadSlot(data1[..], data2[..], next[..], nodes, head, i, size);
      SplitStep(data1[..], data2[..], next[..], nodes, head, i, loc, a, size);
      SplitKeys(nodes, i, loc, a);
      ghost var after := Split(nodes, i, loc, a);
      SplitEnds(nodes, i, loc, a);
      WriteSplit(i, loc, seqno, nodes[i], a);
      nodes := after;
    }

    method WriteSplit(i: int, loc: int, seqno: int, ghost n: Node, ghost a: int)
      requires Arrays() && 0 <= i < size && 0 <= loc < size && i != loc
      requires n.lo <= a < n.hi < n.lo + size && seqno == Wrap(a)
      requires data1[i] == Wrap(n.lo) && data2[i] == Wrap(n.hi) && data2[loc] == -1
      modifies this`head, data1, data2, next
      ensures head == loc
      ensures data1[..] == old(data1[..])[loc := Wrap(a + 1)]
      ensures data2[..] == old(data2[..])[loc := SecondOf(Node(a + 1, n.hi))][i := SecondOf(Node(n.lo, a))]
      ensures next[..] == old(next[..])[loc := old(next[i])][i := loc]
    {
      WrapStep(a);
      WrapCompare(n.hi, a + 1);
      WrapCompare(n.lo, a);
      data1[loc] := IncSeq(seqno);
      if SeqCmp(data2[i], data1[loc]) > 0 {
        data2[loc] := data2[i];
      }
      if seqno == data1[i] {
        data2[i] := -1;
      } else {
        data2[i] := seqno;
      }
      next[loc] := next[i];
      next[i] := loc;
      head := loc;
    }

    /** Drops every interval before the head, starting at slot start. */
    method Purge(start: int, ghost a: int)
      requires ValidFrom(start) && Cut(nodes, head, a)
      modifies this, data1, data2, next
      ensures Valid() && Contents() == Above(old(Contents()), a)
    {
      hide Placed, Disjoint, Stored, Linked, DisjointUpTo, Follows, Cover, Range, Wrap, Aligned, Cut, Split;
      var h := start;
      while h != head
        invariant ValidFrom(h) && Cut(nodes, head, a) && head == old(head)
        invariant Above(Contents(), a) == Above(old(Contents()), a)
        decreases |nodes|
      {
        ghost var was := Contents();
        InsideCut(next[..], nodes, h, head, a, size);
        ReadSlot(data1[..], data2[..], next[..], nodes, h, h, size);
        DropStep(data1[..], data2[..], next[..], nodes, h, size);
        DropCut(nodes, h, head, a);
        AboveDrop(Cover(nodes), Cover(nodes - {h}), nodes[h], a);
        ghost var after := nodes - {h};
        assert after.Keys == nodes.Keys - {h};
        h := DropNode(h, nodes[h]);
        nodes := after;
      }
      CutIsAbove(next[..], nodes, head, a, size);
    }

    method DropNode(h: int, ghost n: Node) returns (h': int)
      requires Arrays() && 0 <= h < size && n.lo <= n.hi < n.lo + size
      requires data1[h] == Wrap(n.lo) && data2[h] == SecondOf(n)
      modifies this`length, this`lastInsertPos, data1, data2
      ensures h' == next[h]
      ensures data1[..] == old(data1[..])[h := -1] && data2[..] == old(data2[..])[h := -1]
      ensures length == old(length) - (n.hi - n.lo + 1)
      ensures lastInsertPos == if old(lastInsertPos) == h then -1 else old(lastInsertPos)
    {
      WrapLength(n.lo, n.hi);
      if data2[h] != -1 {
        length := length - SeqLen(data1[h], data2[h]);
        data2[h] := -1;
      } else {
        length := length - 1;
      }
      data1[h] := -1;
      if lastInsertPos == h {
        lastInsertPos := -1;
      }
      h' := next[h];
    }

    /** Takes the smallest sequence number out of the list, or returns -1 when there is none. */
    method GetLostSeq() returns (seqno: int, ghost least: int)
      requires Valid()
      modifies this, data1, data2, next
      ensures Valid()
      ensures old(Contents()) == {} ==> seqno == -1 && Contents() == {}
      ensures old(Contents()) != {} ==>
        && least in old(Contents()) && (forall x | x in old(Contents()) :: least <= x)
        && seqno == Wrap(least) && Contents() == old(Contents()) - {least}
    {
      EmptyCover(nodes, size);
      if length == 0 {
        return -1, 0;
      }
      LeastIsHead(next[..], nodes, head, size);
      hide Placed, Disjoint, Stored, Linked, DisjointUpTo, Follows, Cover, Range, Wrap, Aligned, Cut, Split;
      ReadSlot(data1[..], data2[..], next[..], nodes, head, head, size);
      least := nodes[head].lo;
      seqno := data1[head];
      RemoveHead(seqno, least);
    }
  }
}
