/** The linked table both loss lists are built on: which arrays represent which intervals, and what the
    elementary changes to the arrays do to the intervals and to the set they cover. */
module LossTables {
  import opened SeqNo
  import opened Intervals

  /** The second entry of an interval's slot; single numbers have none. */
  ghost function SecondOf(n: Node): int {
    if n.lo == n.hi then -1 else Wrap(n.hi)
  }

  /** The slots hold exactly the intervals of the table. */
  ghost predicate Stored(data1: seq<int>, data2: seq<int>, nodes: map<int, Node>) {
    && |data1| == |data2|
    && (forall l {:trigger data1[l]} | 0 <= l < |data1| ::
          data1[l] == (if l in nodes then Wrap(nodes[l].lo) else -1))
    && (forall l {:trigger data2[l]} | 0 <= l < |data2| ::
          data2[l] == (if l in nodes then SecondOf(nodes[l]) else -1))
  }

  /** n is the slot of the first interval above the one in slot l, or -1 when that is the last one. */
  ghost predicate Follows(nodes: map<int, Node>, l: int, n: int)
    requires l in nodes
  {
    && (n == -1 ==> forall m | m in nodes :: nodes[m].lo <= nodes[l].lo)
    && (n != -1 ==>
          && n in nodes && nodes[l].lo < nodes[n].lo
          && forall m | m in nodes :: nodes[m].lo <= nodes[l].lo || nodes[n].lo <= nodes[m].lo)
  }

  /** Following next from slot h visits every interval in increasing order. */
  ghost predicate Linked(next: seq<int>, nodes: map<int, Node>, h: int) {
    && (h == -1 ==> nodes == map[])
    && (h != -1 ==> h in nodes && forall m | m in nodes :: nodes[h].lo <= nodes[m].lo)
    && (forall l | l in nodes :: 0 <= l < |next|)
    && (forall l {:trigger next[l]} | l in nodes :: Follows(nodes, l, next[l]))
  }

  /** Only the interval in slot loc may overlap others, and then only ones after it. */
  ghost predicate DisjointUpTo(nodes: map<int, Node>, loc: int)
    requires loc in nodes
  {
    && (forall l, m | l in nodes && m in nodes && l != m && l != loc && m != loc :: Apart(nodes[l], nodes[m]))
    && forall m | m in nodes && m != loc :: nodes[m].hi < nodes[loc].lo || nodes[loc].lo < nodes[m].lo
  }

  ghost function MergedNode(cur: Node, nxt: Node): Node {
    Node(cur.lo, if nxt.hi > cur.hi then nxt.hi else cur.hi)
  }

  ghost function Merged(nodes: map<int, Node>, loc: int, i: int): map<int, Node>
    requires loc in nodes && i in nodes
  {
    (nodes - {i})[loc := MergedNode(nodes[loc], nodes[i])]
  }

  /** Swallowing an interval that overlaps or touches the one in loc keeps the covered set. */
  lemma MergeCover(nodes: map<int, Node>, loc: int, i: int)
    requires loc in nodes && i in nodes && loc != i
    requires nodes[i].lo <= nodes[i].hi && nodes[loc].lo <= nodes[i].lo <= nodes[loc].hi + 1
    ensures Cover(Merged(nodes, loc, i)) == Cover(nodes)
  {
    var after := Merged(nodes, loc, i);
    forall x | x in Cover(nodes)
      ensures x in Cover(after)
    {
      var m :| m in nodes && x in Range(nodes[m].lo, nodes[m].hi);
      var m' := if m == i then loc else m;
      assert m' in after && x in Range(after[m'].lo, after[m'].hi);
    }
    forall x | x in Cover(after)
      ensures x in Cover(nodes)
    {
      var m :| m in after && x in Range(after[m].lo, after[m].hi);
      if m == loc {
        assert x in Range(nodes[loc].lo, nodes[loc].hi) || x in Range(nodes[i].lo, nodes[i].hi);
      } else {
        assert m in nodes && after[m] == nodes[m];
      }
    }
  }

  /** The other intervals lose exactly the swallowed one. */
  lemma MergeCount(nodes: map<int, Node>, loc: int, i: int)
    requires loc in nodes && i in nodes && loc != i && nodes[i].lo <= nodes[i].hi
    requires DisjointUpTo(nodes, loc)
    ensures Merged(nodes, loc, i) - {loc} == nodes - {loc} - {i}
    ensures |Cover(nodes - {loc})| == |Cover(Merged(nodes, loc, i) - {loc})| + nodes[i].hi - nodes[i].lo + 1
  {
    var rest := nodes - {loc};
    assert Merged(nodes, loc, i) - {loc} == rest - {i};
    CoverSize(rest, i);
  }

  lemma MergeShape(nodes: map<int, Node>, loc: int, i: int, size: int)
    requires loc in nodes && i in nodes && loc != i && nodes[loc].lo < nodes[i].lo
    requires Placed(nodes, size) && DisjointUpTo(nodes, loc)
    ensures Placed(Merged(nodes, loc, i), size)
    ensures DisjointUpTo(Merged(nodes, loc, i), loc)
  {
    var after := Merged(nodes, loc, i);
    assert after - {loc} == nodes - {loc} - {i};
    forall l, m | l in after && m in after
      ensures SlotsAligned(after, l, m, size)
    {
      assert SlotsAligned(nodes, l, m, size);
    }
  }

  lemma MergeLinks(next: seq<int>, nodes: map<int, Node>, h: int, loc: int, i: int)
    requires Linked(next, nodes, h)
    requires loc in nodes && 0 <= loc < |next| && next[loc] == i && i != -1
    requires DisjointUpTo(nodes, loc) && forall m | m in nodes :: nodes[m].lo <= nodes[m].hi
    ensures i in nodes && i != loc && nodes[loc].lo < nodes[i].lo && 0 <= i < |next|
    ensures Linked(next[loc := next[i]], Merged(nodes, loc, i), h)
  {
    assert Follows(nodes, loc, i);
    var _ := next[i];
    var after := Merged(nodes, loc, i);
    var next' := next[loc := next[i]];
    forall l | l in after
      ensures Follows(after, l, next'[l])
    {
      assert Follows(nodes, l, next[l]);
    }
  }

  lemma MergeStored(data1: seq<int>, data2: seq<int>, nodes: map<int, Node>, loc: int, i: int)
    requires Stored(data1, data2, nodes)
    requires loc in nodes && i in nodes && loc != i && 0 <= loc < |data1| && 0 <= i < |data1|
    requires nodes[loc].lo < nodes[loc].hi
    ensures Stored(data1[i := -1], data2[loc := Wrap(Merged(nodes, loc, i)[loc].hi)][i := -1], Merged(nodes, loc, i))
  {
  }

  /** Merging the successor of loc into it keeps the table in shape and linked, and the set it covers. */
  lemma MergeStep(data1: seq<int>, data2: seq<int>, next: seq<int>, nodes: map<int, Node>,
                  h: int, loc: int, i: int, size: int)
    requires |data1| == |data2| == |next| == size
    requires Stored(data1, data2, nodes) && Linked(next, nodes, h) && Placed(nodes, size)
    requires loc in nodes && DisjointUpTo(nodes, loc) && next[loc] == i && i != -1
    requires i in nodes && nodes[loc].lo < nodes[loc].hi && nodes[i].lo <= nodes[loc].hi + 1
    ensures 0 <= i < size && i != loc && nodes[loc].lo < nodes[i].lo <= nodes[i].hi
    ensures nodes[i].hi - nodes[loc].lo < size && nodes[loc].hi - nodes[loc].lo < size
    ensures data2[loc] == Wrap(nodes[loc].hi) && data1[i] == Wrap(nodes[i].lo) && data2[i] == SecondOf(nodes[i])
    ensures var after := Merged(nodes, loc, i);
      && Stored(data1[i := -1], data2[loc := Wrap(after[loc].hi)][i := -1], after)
      && Linked(next[loc := next[i]], after, h) && Placed(after, size)
      && DisjointUpTo(after, loc) && Cover(after) == Cover(nodes) && |after| < |nodes|
      && |Cover(nodes - {loc})| == |Cover(after - {loc})| + nodes[i].hi - nodes[i].lo + 1
  {
    MergeLinks(next, nodes, h, loc, i);
    MergeCover(nodes, loc, i);
    MergeCount(nodes, loc, i);
    MergeShape(nodes, loc, i, size);
    MergeStored(data1, data2, nodes, loc, i);
    assert Merged(nodes, loc, i).Keys == nodes.Keys - {i};
  }

  /** Once the interval after loc starts beyond its end, nothing overlaps any more. */
  lemma SettledShape(nodes: map<int, Node>, loc: int, n: int)
    requires loc in nodes && DisjointUpTo(nodes, loc) && Follows(nodes, loc, n)
    requires n == -1 || nodes[loc].hi < nodes[n].lo
    requires nodes[loc].lo <= nodes[loc].hi
    ensures Disjoint(nodes)
    ensures |Cover(nodes)| == |Cover(nodes - {loc})| + nodes[loc].hi - nodes[loc].lo + 1
  {
    CoverSize(nodes, loc);
  }

  /** The slot computed for counter a holds the interval starting at a if there is one, and else none. */
  lemma SlotOf(nodes: map<int, Node>, h: int, a: int, loc: int, size: int)
    requires Placed(nodes, size) && h in nodes
    requires forall m | m in nodes :: -size < a - nodes[m].lo < size
    requires loc == (h + (a - nodes[h].lo) + size) % size
    ensures 0 <= loc < size
    ensures forall m | m in nodes :: Aligned(loc, m, a - nodes[m].lo, size)
    ensures loc in nodes ==> nodes[loc].lo == a
    ensures forall m | m in nodes && nodes[m].lo == a :: m == loc
  {
    SlotAdd(h, a - nodes[h].lo, size);
    forall m | m in nodes
      ensures Aligned(loc, m, a - nodes[m].lo, size)
    {
      assert SlotsAligned(nodes, h, m, size);
    }
  }

  /** Every interval, with n added, spans less than the table. */
  ghost predicate Roomy(nodes: map<int, Node>, n: Node, size: int) {
    && n.lo <= n.hi < n.lo + size
    && forall m | m in nodes ::
         nodes[m].lo <= nodes[m].hi && nodes[m].hi - n.lo < size && n.hi - nodes[m].lo < size
  }

  lemma AddPlaced(nodes: map<int, Node>, loc: int, n: Node, size: int)
    requires Placed(nodes, size) && loc !in nodes && 0 <= loc < size
    requires forall m | m in nodes :: Aligned(loc, m, n.lo - nodes[m].lo, size)
    requires n.lo <= n.hi < n.lo + size
    requires Roomy(nodes, n, size)
    ensures Placed(nodes[loc := n], size)
  {
    var after := nodes[loc := n];
    forall l, m | l in after && m in after
      ensures SlotsAligned(after, l, m, size)
    {
      if l != loc && m != loc {
        assert SlotsAligned(nodes, l, m, size);
      } else if l == loc && m != loc {
        assert Aligned(loc, m, n.lo - nodes[m].lo, size);
      } else if m == loc && l != loc {
        assert Aligned(loc, l, n.lo - nodes[l].lo, size);
      }
    }
  }

  lemma AddStored(data1: seq<int>, data2: seq<int>, nodes: map<int, Node>, loc: int, n: Node)
    requires Disjoint(nodes) && loc !in nodes && 0 <= loc < |data1|
    requires Stored(data1, data2, nodes)
    requires forall m | m in nodes :: nodes[m].hi < n.lo || n.lo < nodes[m].lo
    ensures data2[loc] == -1
    ensures DisjointUpTo(nodes[loc := n], loc)
    ensures Stored(data1[loc := Wrap(n.lo)], data2[loc := SecondOf(n)], nodes[loc := n])
    ensures Cover(nodes[loc := n]) == Cover(nodes) + Range(n.lo, n.hi)
    ensures nodes[loc := n] - {loc} == nodes
  {
    CoverInsert(nodes, loc, n);
  }

  lemma LinkHead(next: seq<int>, nodes: map<int, Node>, h: int, loc: int, n: Node)
    requires Linked(next, nodes, h) && h in nodes && loc !in nodes && 0 <= loc < |next|
    requires n.lo < nodes[h].lo
    ensures Linked(next[loc := h], nodes[loc := n], loc)
  {
    var after := nodes[loc := n];
    forall l | l in after
      ensures Follows(after, l, next[loc := h][l])
    {
      if l != loc { assert Follows(nodes, l, next[l]); }
    }
  }

  lemma LinkAfter(next: seq<int>, nodes: map<int, Node>, h: int, i: int, loc: int, n: Node)
    requires Linked(next, nodes, h) && i in nodes && loc !in nodes && 0 <= loc < |next|
    requires 0 <= i < |next| && nodes[i].lo < n.lo
    requires next[i] == -1 || (next[i] in nodes && n.lo < nodes[next[i]].lo)
    requires Disjoint(nodes) && forall m | m in nodes :: nodes[m].lo <= nodes[m].hi
    ensures Linked(next[loc := next[i]][i := loc], nodes[loc := n], h)
  {
    assert Follows(nodes, i, next[i]);
    var after := nodes[loc := n];
    forall l | l in after
      ensures Follows(after, l, next[loc := next[i]][i := loc][l])
    {
      if l != loc { assert Follows(nodes, l, next[l]); }
    }
  }

  /** A new first interval. */
  lemma PutHeadStep(data1: seq<int>, data2: seq<int>, next: seq<int>, nodes: map<int, Node>,
                    h: int, loc: int, n: Node, size: int)
    requires |data1| == |next| == size && Placed(nodes, size) && Disjoint(nodes)
    requires Stored(data1, data2, nodes) && Linked(next, nodes, h)
    requires h in nodes && n.lo < nodes[h].lo && 0 <= loc < size && loc !in nodes
    requires n.lo <= n.hi < n.lo + size
    requires forall m | m in nodes :: Aligned(loc, m, n.lo - nodes[m].lo, size)
    requires Roomy(nodes, n, size)
    ensures data2[loc] == -1
    ensures var after := nodes[loc := n];
      && Placed(after, size) && DisjointUpTo(after, loc) && Linked(next[loc := h], after, loc)
      && Stored(data1[loc := Wrap(n.lo)], data2[loc := SecondOf(n)], after)
      && Cover(after) == Cover(nodes) + Range(n.lo, n.hi) && after - {loc} == nodes
  {
    AddPlaced(nodes, loc, n, size);
    AddStored(data1, data2, nodes, loc, n);
    LinkHead(next, nodes, h, loc, n);
  }

  /** A first interval goes to slot 0. */
  lemma PutFirstStep(data1: seq<int>, data2: seq<int>, next: seq<int>, nodes: map<int, Node>,
                     h: int, n: Node, size: int)
    requires |data1| == |next| == size && 0 < size && nodes == map[]
    requires Stored(data1, data2, nodes) && n.lo <= n.hi < n.lo + size
    ensures data2[0] == -1
    ensures var after := map[0 := n];
      && Placed(after, size) && Disjoint(after) && Linked(next[0 := -1], after, 0)
      && Stored(data1[0 := Wrap(n.lo)], data2[0 := SecondOf(n)], after)
      && Cover(after) == Cover(nodes) + Range(n.lo, n.hi)
      && |Cover(nodes)| == 0 && |Cover(after)| == n.hi - n.lo + 1
  {
    assert map[0 := n] == nodes[0 := n];
    assert Linked(next[0 := -1], map[0 := n], 0);
    PutFirstCover(data1, data2, nodes, n);
    AddPlaced(nodes, 0, n, size);
  }

  lemma PutFirstCover(data1: seq<int>, data2: seq<int>, nodes: map<int, Node>, n: Node)
    requires 0 < |data1| && nodes == map[] && Stored(data1, data2, nodes) && n.lo <= n.hi
    ensures data2[0] == -1 && |Cover(nodes)| == 0 && |Cover(nodes[0 := n])| == n.hi - n.lo + 1
    ensures Cover(nodes[0 := n]) == Cover(nodes) + Range(n.lo, n.hi)
    ensures Stored(data1[0 := Wrap(n.lo)], data2[0 := SecondOf(n)], nodes[0 := n])
  {
    AddStored(data1, data2, nodes, 0, n);
    assert Cover(nodes) == {};
    assert Cover(nodes) + Range(n.lo, n.hi) == Range(n.lo, n.hi);
    RangeSize(n.lo, n.hi);
  }

  /** A new interval between the one in slot i and its successor. */
  lemma PutAfterStep(data1: seq<int>, data2: seq<int>, next: seq<int>, nodes: map<int, Node>,
                     h: int, i: int, loc: int, n: Node, size: int)
    requires |data1| == |next| == size && Placed(nodes, size) && Disjoint(nodes)
    requires Stored(data1, data2, nodes) && Linked(next, nodes, h)
    requires i in nodes && nodes[i].hi < n.lo && 0 <= loc < size && loc !in nodes
    requires next[i] == -1 || (next[i] in nodes && n.lo < nodes[next[i]].lo)
    requires n.lo <= n.hi < n.lo + size
    requires forall m | m in nodes :: Aligned(loc, m, n.lo - nodes[m].lo, size)
    requires Roomy(nodes, n, size)
    ensures data2[loc] == -1
    ensures var after := nodes[loc := n];
      && Placed(after, size) && DisjointUpTo(after, loc) && Linked(next[loc := next[i]][i := loc], after, h)
      && Stored(data1[loc := Wrap(n.lo)], data2[loc := SecondOf(n)], after)
      && Cover(after) == Cover(nodes) + Range(n.lo, n.hi) && after - {loc} == nodes
  {
    BelowOrAbove(next, nodes, h, i, n.lo);
    AddPlaced(nodes, loc, n, size);
    AddStored(data1, data2, nodes, loc, n);
    LinkAfter(next, nodes, h, i, loc, n);
  }

  /** Moving the end of the interval in slot i further up. */
  lemma ExtendShape(nodes: map<int, Node>, i: int, n: Node, size: int)
    requires i in nodes && Placed(nodes, size) && Disjoint(nodes)
    requires n.lo == nodes[i].lo && nodes[i].hi <= n.hi
    requires forall m | m in nodes :: n.hi - nodes[m].lo < size
    ensures Placed(nodes[i := n], size) && DisjointUpTo(nodes[i := n], i)
  {
    var after := nodes[i := n];
    forall l, m | l in after && m in after
      ensures SlotsAligned(after, l, m, size)
    {
      assert SlotsAligned(nodes, l, m, size);
    }
  }

  lemma ExtendStored(data1: seq<int>, data2: seq<int>, nodes: map<int, Node>, i: int, n: Node)
    requires Stored(data1, data2, nodes) && i in nodes && n.lo == nodes[i].lo && 0 <= i < |data1|
    ensures Stored(data1, data2[i := SecondOf(n)], nodes[i := n])
  {
  }

  lemma ExtendLinks(next: seq<int>, nodes: map<int, Node>, h: int, i: int, n: Node)
    requires Linked(next, nodes, h) && i in nodes && n.lo == nodes[i].lo
    ensures Linked(next, nodes[i := n], h)
  {
    var after := nodes[i := n];
    forall l | l in after
      ensures Follows(after, l, next[l])
    {
      assert Follows(nodes, l, next[l]);
    }
  }

  lemma ExtendCover(nodes: map<int, Node>, i: int, n: Node, a: int)
    requires i in nodes && Disjoint(nodes) && n.lo == nodes[i].lo
    requires nodes[i].lo <= a <= nodes[i].hi <= n.hi
    ensures Cover(nodes[i := n]) == Cover(nodes) + Range(a, n.hi)
    ensures nodes[i := n] - {i} == nodes - {i}
    ensures |Cover(nodes)| == |Cover(nodes - {i})| + nodes[i].hi - nodes[i].lo + 1
  {
    assert nodes[i := n] - {i} == nodes - {i};
    CoverRemove(nodes, i);
    CoverRemove(nodes[i := n], i);
    CoverSize(nodes, i);
  }

  lemma ExtendStep(data1: seq<int>, data2: seq<int>, next: seq<int>, nodes: map<int, Node>,
                   h: int, i: int, n: Node, a: int, size: int)
    requires |data1| == |next| == size && Placed(nodes, size) && Disjoint(nodes)
    requires Stored(data1, data2, nodes) && Linked(next, nodes, h)
    requires i in nodes && n.lo == nodes[i].lo <= a <= nodes[i].hi <= n.hi
    requires forall m | m in nodes :: n.hi - nodes[m].lo < size
    ensures data1[i] == Wrap(n.lo) && data2[i] == SecondOf(nodes[i])
    ensures var after := nodes[i := n];
      && Placed(after, size) && DisjointUpTo(after, i) && Linked(next, after, h)
      && Stored(data1, data2[i := SecondOf(n)], after)
      && Cover(after) == Cover(nodes) + Range(a, n.hi) && after - {i} == nodes - {i}
      && |Cover(nodes)| == |Cover(nodes - {i})| + nodes[i].hi - nodes[i].lo + 1
  {
    ReadSlot(data1, data2, next, nodes, h, i, size);
    hide Placed, Disjoint, Stored, Linked, DisjointUpTo, Cover, Range;
    ExtendShape(nodes, i, n, size);
    ExtendStored(data1, data2, nodes, i, n);
    ExtendLinks(next, nodes, h, i, n);
    ExtendCover(nodes, i, n, a);
  }

  lemma EmptyCover(nodes: map<int, Node>, size: int)
    requires Placed(nodes, size)
    ensures |Cover(nodes)| == 0 <==> nodes == map[]
  {
    if forall l :: l !in nodes {
      assert nodes == map[];
      assert Cover(nodes) == {};
    } else {
      var l :| l in nodes;
      assert nodes[l].lo in Range(nodes[l].lo, nodes[l].hi);
      assert nodes[l].lo in Cover(nodes);
    }
  }

  /** The ends of every interval belong to the set. */
  lemma EndsInCover(nodes: map<int, Node>, size: int)
    requires Placed(nodes, size)
    ensures forall l | l in nodes :: nodes[l].lo in Cover(nodes) && nodes[l].hi in Cover(nodes)
  {
    forall l | l in nodes
      ensures nodes[l].lo in Cover(nodes) && nodes[l].hi in Cover(nodes)
    {
      assert nodes[l].lo in Range(nodes[l].lo, nodes[l].hi);
      assert nodes[l].hi in Range(nodes[l].lo, nodes[l].hi);
    }
  }

  lemma RoomToInsert(nodes: map<int, Node>, n: Node, size: int)
    requires Placed(nodes, size) && n.lo <= n.hi < n.lo + size
    requires forall x | x in Cover(nodes) :: x - n.lo < size && n.hi - x < size
    ensures Roomy(nodes, n, size)
  {
    EndsInCover(nodes, size);
  }

  lemma NearBy(nodes: map<int, Node>, l: int, m: int, size: int)
    requires Placed(nodes, size) && l in nodes && m in nodes
    ensures -size < nodes[l].lo - nodes[m].lo < size && -size < nodes[l].hi - nodes[m].lo < size
    ensures -size < nodes[l].hi - nodes[m].hi < size
  {
  }

  lemma HeadInTable(next: seq<int>, nodes: map<int, Node>, h: int)
    requires Linked(next, nodes, h) && nodes != map[]
    ensures h in nodes && forall m | m in nodes :: nodes[h].lo <= nodes[m].lo
  {
  }

  /** What the arrays say about an occupied slot. */
  lemma ReadSlot(data1: seq<int>, data2: seq<int>, next: seq<int>, nodes: map<int, Node>, h: int, l: int, size: int)
    requires |data1| == |next| == size && l in nodes
    requires Placed(nodes, size) && Stored(data1, data2, nodes) && Linked(next, nodes, h)
    ensures 0 <= l < size && nodes[l].lo <= nodes[l].hi < nodes[l].lo + size
    ensures data1[l] == Wrap(nodes[l].lo) && data2[l] == SecondOf(nodes[l])
    ensures Follows(nodes, l, next[l])
    ensures h in nodes && nodes[h].lo <= nodes[l].lo
  {
  }

  /** An empty slot reads -1. */
  lemma ReadEmpty(data1: seq<int>, data2: seq<int>, nodes: map<int, Node>, l: int)
    requires Stored(data1, data2, nodes) && 0 <= l < |data1| && l !in nodes
    ensures data1[l] == -1
  {
  }

  lemma FollowsFacts(nodes: map<int, Node>, l: int, n: int)
    requires l in nodes && Follows(nodes, l, n)
    ensures n == -1 || (n in nodes && nodes[l].lo < nodes[n].lo)
  {
  }

  /** Everything in [a, b] that an interval already covers is nothing new. */
  lemma NothingNew(nodes: map<int, Node>, i: int, a: int, b: int)
    requires i in nodes && nodes[i].lo <= a && b <= nodes[i].hi
    ensures Cover(nodes) + Range(a, b) == Cover(nodes)
  {
    assert Range(a, b) <= Range(nodes[i].lo, nodes[i].hi) <= Cover(nodes);
  }

  /** Adding [a, b] enlarges a set by the elements that were missing. */
  lemma CountNew(s: set<int>, a: int, b: int)
    ensures |s + Range(a, b)| == |s| + |Range(a, b) - s|
  {
    assert s + Range(a, b) == s + (Range(a, b) - s);
  }

  /** With nothing starting between the interval in slot i and a, every interval ends below or starts above a. */
  lemma BelowOrAbove(next: seq<int>, nodes: map<int, Node>, h: int, i: int, a: int)
    requires Linked(next, nodes, h) && Disjoint(nodes) && forall m | m in nodes :: nodes[m].lo <= nodes[m].hi
    requires i in nodes && 0 <= i < |next| && nodes[i].hi < a
    requires next[i] == -1 || (next[i] in nodes && a < nodes[next[i]].lo)
    ensures forall m | m in nodes :: nodes[m].hi < a || a < nodes[m].lo
  {
    assert Follows(nodes, i, next[i]);
  }

  /** The slot after that of counter x is free when x and x + 1 lie in one interval. */
  lemma NextSlotFree(nodes: map<int, Node>, i: int, h: int, x: int, slot: int, loc: int, size: int)
    requires Placed(nodes, size) && Disjoint(nodes) && i in nodes && h in nodes
    requires nodes[i].lo <= x < nodes[i].hi
    requires slot == (h + (x - nodes[h].lo) + size) % size && loc == (slot + 1) % size
    ensures 0 <= loc < size && loc !in nodes
    ensures forall m | m in nodes :: Aligned(loc, m, x + 1 - nodes[m].lo, size)
  {
    SlotOf(nodes, h, x, slot, size);
    forall m | m in nodes
      ensures Aligned(loc, m, x + 1 - nodes[m].lo, size)
    {
      assert Aligned(slot, m, x - nodes[m].lo, size);
      SlotAdd(slot, 1, size);
      StepSlot(slot, size);
    }
  }

  lemma StepSlot(slot: int, size: int)
    requires 0 <= slot < size
    ensures (slot + 1) % size == if slot + 1 == size then 0 else slot + 1
  {
  }

  /** Cutting the interval in slot i after counter a moves its upper part to slot loc. */
  lemma SplitShape(nodes: map<int, Node>, i: int, loc: int, a: int, size: int)
    requires Placed(nodes, size) && Disjoint(nodes) && i in nodes && nodes[i].lo <= a < nodes[i].hi
    requires 0 <= loc < size && loc !in nodes
    requires forall m | m in nodes :: Aligned(loc, m, a + 1 - nodes[m].lo, size)
    ensures Placed(Split(nodes, i, loc, a), size) && Disjoint(Split(nodes, i, loc, a))
  {
    var after := Split(nodes, i, loc, a);
    forall l, m | l in after && m in after
      ensures SlotsAligned(after, l, m, size)
    {
      SplitAligned(nodes, i, loc, a, size, l, m);
    }
    hide Split;
  }

  lemma SplitAligned(nodes: map<int, Node>, i: int, loc: int, a: int, size: int, l: int, m: int)
    requires Placed(nodes, size) && i in nodes && nodes[i].lo <= a < nodes[i].hi && 0 <= loc < size && loc !in nodes
    requires forall m | m in nodes :: Aligned(loc, m, a + 1 - nodes[m].lo, size)
    requires l in Split(nodes, i, loc, a) && m in Split(nodes, i, loc, a)
    ensures SlotsAligned(Split(nodes, i, loc, a), l, m, size)
  {
    if l != loc && m != loc {
      assert SlotsAligned(nodes, l, m, size);
    } else if l == loc && m != loc {
      assert Aligned(loc, m, a + 1 - nodes[m].lo, size);
    } else if m == loc && l != loc {
      assert Aligned(loc, l, a + 1 - nodes[l].lo, size);
    }
  }

  ghost function Split(nodes: map<int, Node>, i: int, loc: int, a: int): map<int, Node>
    requires i in nodes && loc !in nodes
  {
    nodes[i := Node(nodes[i].lo, a)][loc := Node(a + 1, nodes[i].hi)]
  }

  lemma SplitCover(nodes: map<int, Node>, i: int, loc: int, a: int)
    requires i in nodes && loc !in nodes && nodes[i].lo <= a < nodes[i].hi
    ensures Cover(Split(nodes, i, loc, a)) == Cover(nodes)
  {
    var low := nodes[i := Node(nodes[i].lo, a)];
    CoverInsert(low, loc, Node(a + 1, nodes[i].hi));
    CoverRemove(low, i);
    CoverRemove(nodes, i);
    assert low - {i} == nodes - {i};
  }

  lemma SplitLinks(next: seq<int>, nodes: map<int, Node>, h: int, i: int, loc: int, a: int)
    requires Linked(next, nodes, h) && Disjoint(nodes) && i in nodes && nodes[i].lo <= a < nodes[i].hi
    requires forall m | m in nodes :: nodes[m].lo <= nodes[m].hi
    requires loc !in nodes && 0 <= loc < |next| && 0 <= i < |next|
    ensures Linked(next[loc := next[i]][i := loc], Split(nodes, i, loc, a), h)
  {
    var n := Node(a + 1, nodes[i].hi);
    var low := nodes[i := Node(nodes[i].lo, a)];
    ExtendLinks(next, nodes, h, i, low[i]);
    assert Follows(nodes, i, next[i]);
    LinkAfter(next, low, h, i, loc, n);
  }

  lemma SplitStored(data1: seq<int>, data2: seq<int>, nodes: map<int, Node>, i: int, loc: int, a: int)
    requires Stored(data1, data2, nodes) && i in nodes && nodes[i].lo <= a < nodes[i].hi
    requires loc !in nodes && 0 <= loc < |data1| && 0 <= i < |data1|
    ensures data2[loc] == -1
    ensures var after := Split(nodes, i, loc, a);
      Stored(data1[loc := Wrap(a + 1)], data2[loc := SecondOf(after[loc])][i := SecondOf(after[i])], after)
  {
  }

  lemma SplitStep(data1: seq<int>, data2: seq<int>, next: seq<int>, nodes: map<int, Node>,
                  h: int, i: int, loc: int, a: int, size: int)
    requires |data1| == |next| == size && Placed(nodes, size) && Disjoint(nodes)
    requires Stored(data1, data2, nodes) && Linked(next, nodes, h)
    requires i in nodes && nodes[i].lo <= a < nodes[i].hi && 0 <= loc < size && loc !in nodes
    requires forall m | m in nodes :: Aligned(loc, m, a + 1 - nodes[m].lo, size)
    ensures 0 <= i < size && data2[loc] == -1 && loc != -1
    ensures var after := Split(nodes, i, loc, a);
      && Placed(after, size) && Disjoint(after) && Linked(next[loc := next[i]][i := loc], after, h)
      && Stored(data1[loc := Wrap(a + 1)], data2[loc := SecondOf(after[loc])][i := SecondOf(after[i])], after)
      && Cover(after) == Cover(nodes)
    ensures Cut(Split(nodes, i, loc, a), loc, a)
  {
    SplitCut(nodes, i, loc, a, size);
    ReadSlot(data1, data2, next, nodes, h, i, size);
    assert forall m | m in nodes :: nodes[m].lo <= nodes[m].hi;
    hide Placed, Disjoint, Stored, Linked, Cover, Range, Cut;
    SplitShape(nodes, i, loc, a, size);
    SplitCover(nodes, i, loc, a);
    SplitLinks(next, nodes, h, i, loc, a);
    SplitStored(data1, data2, nodes, i, loc, a);
  }

  lemma SplitCut(nodes: map<int, Node>, i: int, loc: int, a: int, size: int)
    requires Placed(nodes, size) && Disjoint(nodes) && i in nodes && nodes[i].lo <= a < nodes[i].hi
    requires loc !in nodes && 0 <= loc
    ensures Cut(Split(nodes, i, loc, a), loc, a)
  {
  }

  /** Slot g holds the first interval above counter a, and all intervals before it end at or below a. */
  ghost predicate Cut(nodes: map<int, Node>, g: int, a: int) {
    && (g == -1 ==> forall m | m in nodes :: nodes[m].hi <= a)
    && (g != -1 ==>
          && g in nodes && nodes[g].lo > a
          && forall m | m in nodes :: nodes[g].lo <= nodes[m].lo || nodes[m].hi <= a)
  }

  /** The successor of the last interval that reaches no further than a is the cut. */
  lemma CutAfter(next: seq<int>, nodes: map<int, Node>, h: int, i: int, a: int, size: int)
    requires Linked(next, nodes, h) && Placed(nodes, size) && Disjoint(nodes)
    requires i in nodes && 0 <= i < |next| && nodes[i].hi <= a
    requires next[i] == -1 || (next[i] in nodes && a < nodes[next[i]].lo)
    ensures Cut(nodes, next[i], a)
  {
    assert Follows(nodes, i, next[i]);
  }

  /** Dropping the first interval of the list. */
  lemma DropStep(data1: seq<int>, data2: seq<int>, next: seq<int>, nodes: map<int, Node>, h: int, size: int)
    requires |data1| == |next| == size && Placed(nodes, size) && Disjoint(nodes)
    requires Stored(data1, data2, nodes) && Linked(next, nodes, h) && h in nodes && 0 <= h < size
    ensures Placed(nodes - {h}, size) && Disjoint(nodes - {h}) && Linked(next, nodes - {h}, next[h])
    ensures Stored(data1[h := -1], data2[h := -1], nodes - {h})
    ensures Cover(nodes) == Cover(nodes - {h}) + Range(nodes[h].lo, nodes[h].hi)
    ensures Cover(nodes - {h}) !! Range(nodes[h].lo, nodes[h].hi)
    ensures |Cover(nodes - {h})| == |Cover(nodes)| - (nodes[h].hi - nodes[h].lo + 1)
  {
    hide Placed, Disjoint, Stored, Linked, Cover, Range;
    DropCover(nodes, h, size);
    DropShape(nodes, h, size);
    DropLinks(next, nodes, h, size);
    DropStored(data1, data2, nodes, h);
  }

  lemma DropCover(nodes: map<int, Node>, h: int, size: int)
    requires Placed(nodes, size) && Disjoint(nodes) && h in nodes
    ensures Cover(nodes) == Cover(nodes - {h}) + Range(nodes[h].lo, nodes[h].hi)
    ensures Cover(nodes - {h}) !! Range(nodes[h].lo, nodes[h].hi)
    ensures |Cover(nodes - {h})| == |Cover(nodes)| - (nodes[h].hi - nodes[h].lo + 1)
  {
    CoverSize(nodes, h);
  }

  lemma DropStored(data1: seq<int>, data2: seq<int>, nodes: map<int, Node>, h: int)
    requires Stored(data1, data2, nodes) && 0 <= h < |data1|
    ensures Stored(data1[h := -1], data2[h := -1], nodes - {h})
  {
  }

  lemma DropShape(nodes: map<int, Node>, h: int, size: int)
    requires Placed(nodes, size) && Disjoint(nodes)
    ensures Placed(nodes - {h}, size) && Disjoint(nodes - {h})
  {
    var after := nodes - {h};
    forall l, m | l in after && m in after
      ensures SlotsAligned(after, l, m, size)
    {
      assert SlotsAligned(nodes, l, m, size);
    }
  }

  lemma DropLinks(next: seq<int>, nodes: map<int, Node>, h: int, size: int)
    requires Linked(next, nodes, h) && h in nodes && 0 <= h < |next| && Disjoint(nodes) && Placed(nodes, size)
    ensures Linked(next, nodes - {h}, next[h])
  {
    var after := nodes - {h};
    assert Follows(nodes, h, next[h]);
    forall l | l in after
      ensures Follows(after, l, next[l])
    {
      assert Follows(nodes, l, next[l]);
    }
    if next[h] == -1 {
      assert forall m | m in nodes :: m == h;
      assert after == map[];
    }
  }

  /** Links out of empty slots do not matter. */
  lemma LinkedAgree(next: seq<int>, next': seq<int>, nodes: map<int, Node>, h: int)
    requires Linked(next, nodes, h) && |next'| == |next|
    requires forall l | l in nodes && 0 <= l < |next| :: next'[l] == next[l]
    ensures Linked(next', nodes, h)
  {
    forall l | l in nodes
      ensures Follows(nodes, l, next'[l])
    {
      assert Follows(nodes, l, next[l]);
    }
  }

  /** The head interval loses its first counter; what is left of it moves on to slot loc. */
  lemma ShiftStep(data1: seq<int>, data2: seq<int>, next: seq<int>, nodes: map<int, Node>,
                  h: int, loc: int, size: int)
    requires |data1| == |data2| == |next| == size && Placed(nodes, size) && Disjoint(nodes)
    requires Stored(data1, data2, nodes) && Linked(next, nodes, h)
    requires h in nodes && 0 <= h < size && nodes[h].lo < nodes[h].hi && loc == (h + 1) % size
    ensures loc !in nodes && data2[loc] == -1
    ensures var a := nodes[h].lo;
      var after := Split(nodes, h, loc, a) - {h};
      && after[loc] == Node(a + 1, nodes[h].hi)
      && Placed(after, size) && Disjoint(after) && Linked(next[loc := next[h]], after, loc)
      && Stored(data1[loc := Wrap(a + 1)][h := -1], data2[loc := SecondOf(after[loc])][h := -1], after)
      && Cover(nodes) == Cover(after) + {a} && a !in Cover(after) && |Cover(after)| == |Cover(nodes)| - 1
  {
    hide Placed, Disjoint, Stored, Linked, Follows, Cover, Range, Cut, Aligned;
    var a := nodes[h].lo;
    WholeTurn(h, size);
    NextSlotFree(nodes, h, h, a, h, loc, size);
    SingleRange(a);
    SplitKeys(nodes, h, loc, a);
    SplitStep(data1, data2, next, nodes, h, h, loc, a, size);
    var mid := Split(nodes, h, loc, a);
    var d1, d2 := data1[loc := Wrap(a + 1)], data2[loc := SecondOf(mid[loc])];
    var nx := next[loc := next[h]][h := loc];
    DropStep(d1, d2[h := SecondOf(mid[h])], nx, mid, h, size);
    assert d2[h := SecondOf(mid[h])][h := -1] == d2[h := -1];
    LinkedAgree(nx, next[loc := next[h]], mid - {h}, loc);
  }

  lemma WholeTurn(h: int, size: int)
    requires 0 <= h < size
    ensures (h + 0 + size) % size == h
  {
  }

  ghost function Above(s: set<int>, a: int): set<int> {
    set x | x in s && x > a
  }

  lemma NothingAbove(s: set<int>, a: int)
    requires |s| == 0
    ensures Above(s, a) == s
  {
  }

  lemma AllAbove(s: set<int>, a: int)
    requires forall x | x in s :: a < x
    ensures Above(s, a) == s
  {
  }

  lemma AboveLeast(s: set<int>, a: int)
    requires forall x | x in s :: a <= x
    ensures Above(s, a) == s - {a}
  {
  }

  lemma AboveDrop(s: set<int>, s': set<int>, n: Node, a: int)
    requires s == s' + Range(n.lo, n.hi) && n.hi <= a
    ensures Above(s, a) == Above(s', a)
  {
  }

  /** Counters near all of a set are near the ends of its intervals. */
  lemma NearCover(nodes: map<int, Node>, a: int, size: int)
    requires Placed(nodes, size) && forall x | x in Cover(nodes) :: -SEQ_TH < x - a < SEQ_TH
    ensures forall m | m in nodes :: -SEQ_TH < nodes[m].lo - a < SEQ_TH && -SEQ_TH < nodes[m].hi - a < SEQ_TH
  {
    EndsInCover(nodes, size);
  }

  /** A slot that reads as counter a holds the interval starting there. */
  lemma StartsHere(data1: seq<int>, data2: seq<int>, next: seq<int>, nodes: map<int, Node>,
                   h: int, l: int, a: int, size: int)
    requires |data1| == |next| == size && Placed(nodes, size)
    requires Stored(data1, data2, nodes) && Linked(next, nodes, h)
    requires 0 <= l < size && data1[l] == Wrap(a)
    requires forall m | m in nodes :: -SEQ_TH < nodes[m].lo - a < SEQ_TH
    ensures l in nodes && nodes[l].lo == a
  {
    if l in nodes {
      WrapInjective(nodes[l].lo, a);
    }
  }

  /** Before the cut there is an interval to drop. */
  lemma InsideCut(next: seq<int>, nodes: map<int, Node>, h: int, g: int, a: int, size: int)
    requires Linked(next, nodes, h) && Cut(nodes, g, a) && Disjoint(nodes) && Placed(nodes, size) && h != g
    ensures h in nodes && nodes[h].hi <= a
  {
  }

  lemma DropCut(nodes: map<int, Node>, h: int, g: int, a: int)
    requires Cut(nodes, g, a) && h != g
    ensures Cut(nodes - {h}, g, a)
  {
  }

  /** Read from the cut, the list is what lies above a. */
  lemma CutIsAbove(next: seq<int>, nodes: map<int, Node>, g: int, a: int, size: int)
    requires Linked(next, nodes, g) && Cut(nodes, g, a) && Placed(nodes, size)
    ensures Above(Cover(nodes), a) == Cover(nodes)
  {
  }

  lemma SplitEnds(nodes: map<int, Node>, i: int, loc: int, a: int)
    requires i in nodes && loc !in nodes
    ensures var after := Split(nodes, i, loc, a);
      after[i] == Node(nodes[i].lo, a) && after[loc] == Node(a + 1, nodes[i].hi)
  {
  }

  lemma SingleRange(a: int)
    ensures Range(a, a) == {a}
  {
  }

  lemma SplitKeys(nodes: map<int, Node>, i: int, loc: int, a: int)
    requires i in nodes && loc !in nodes
    ensures (Split(nodes, i, loc, a) - {i}).Keys == nodes.Keys - {i} + {loc}
    ensures Split(nodes, i, loc, a).Keys == nodes.Keys + {loc}
  {
  }

  lemma LeastIsHead(next: seq<int>, nodes: map<int, Node>, h: int, size: int)
    requires Linked(next, nodes, h) && Placed(nodes, size) && nodes != map[]
    ensures h in nodes && nodes[h].lo in Cover(nodes)
    ensures forall x | x in Cover(nodes) :: nodes[h].lo <= x
  {
    EndsInCover(nodes, size);
  }

  /** A counter that starts an interval is found in the slot computed for it. */
  lemma NotAStart(data1: seq<int>, data2: seq<int>, next: seq<int>, nodes: map<int, Node>,
                  h: int, a: int, loc: int, size: int)
    requires |data1| == |next| == size && Placed(nodes, size)
    requires Stored(data1, data2, nodes) && Linked(next, nodes, h) && h in nodes
    requires loc == (h + (a - nodes[h].lo) + size) % size && 0 <= loc < size && data1[loc] != Wrap(a)
    ensures forall m | m in nodes :: nodes[m].lo != a
  {
    forall m | m in nodes
      ensures nodes[m].lo != a
    {
      if nodes[m].lo == a {
        SlotOf(nodes, h, a, loc, size);
        ReadSlot(data1, data2, next, nodes, h, m, size);
      }
    }
  }
}
