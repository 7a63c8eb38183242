/** Finite sets of packet counters held as intervals in the slots of a circular table. */
module Intervals {
  import opened Basics

  /** The interval [lo, hi] of unbounded packet counters. */
  datatype Node = Node(lo: int, hi: int)

  ghost function Range(a: int, b: int): (s: set<int>)
    ensures forall x :: x in s <==> a <= x <= b
    decreases b - a
  {
    if a > b then {} else Range(a, b - 1) + {b}
  }

  /** The counters covered by a table of intervals. */
  ghost function Cover(nodes: map<int, Node>): set<int> {
    set l, x | l in nodes && x in Range(nodes[l].lo, nodes[l].hi) :: x
  }

  ghost predicate Apart(m: Node, n: Node) {
    m.hi < n.lo || n.hi < m.lo
  }

  /** Slots l and m are as far apart round the circle as two counters that differ by d. */
  ghost predicate Aligned(l: int, m: int, d: int, size: int) {
    l - m == d || l - m == d - size || l - m == d + size
  }

  ghost predicate SlotsAligned(nodes: map<int, Node>, l: int, m: int, size: int)
    requires l in nodes && m in nodes
  {
    Aligned(l, m, nodes[l].lo - nodes[m].lo, size)
  }

  /** Intervals start in the slots their counters select and together span less than the table. */
  ghost predicate Placed(nodes: map<int, Node>, size: int) {
    && (forall l | l in nodes :: 0 <= l < size && nodes[l].lo <= nodes[l].hi)
    && (forall l, m | l in nodes && m in nodes :: nodes[m].hi - nodes[l].lo < size)
    && (forall l, m {:trigger SlotsAligned(nodes, l, m, size)} | l in nodes && m in nodes ::
          SlotsAligned(nodes, l, m, size))
  }

  ghost predicate Disjoint(nodes: map<int, Node>) {
    forall l, m | l in nodes && m in nodes && l != m :: Apart(nodes[l], nodes[m])
  }

  lemma RangeSize(a: int, b: int)
    requires a <= b + 1
    ensures |Range(a, b)| == b - a + 1
    decreases b - a
  {
  }

  /** Starting from slot l, d steps round the circle lead to an aligned slot. */
  lemma SlotAdd(l: int, d: int, size: int)
    requires 0 <= l < size && -size < d < size
    ensures 0 <= (l + d + size) % size < size
    ensures Aligned((l + d + size) % size, l, d, size)
  {
    Laps(l + d + size, size);
  }

  /** Less than three laps round the circle. */
  lemma Laps(x: int, size: int)
    requires 0 <= x < 3 * size
    ensures x % size == if x < size then x else if x < 2 * size then x - size else x - 2 * size
  {
    var q, r := x / size, x % size;
    assert x == q * size + r;
    Multiple(q, size);
    assert 0 <= q <= 2;
  }

  lemma CoverInsert(nodes: map<int, Node>, l: int, n: Node)
    requires l !in nodes
    ensures Cover(nodes[l := n]) == Cover(nodes) + Range(n.lo, n.hi)
  {
    var after := nodes[l := n];
    forall x | x in Cover(nodes) + Range(n.lo, n.hi)
      ensures x in Cover(after)
    {
      if x in Range(n.lo, n.hi) {
        assert after[l] == n;
      } else {
        var m :| m in nodes && x in Range(nodes[m].lo, nodes[m].hi);
        assert after[m] == nodes[m];
      }
    }
  }

  lemma CoverRemove(nodes: map<int, Node>, l: int)
    requires l in nodes
    ensures Cover(nodes) == Cover(nodes - {l}) + Range(nodes[l].lo, nodes[l].hi)
  {
    assert (nodes - {l})[l := nodes[l]] == nodes;
    CoverInsert(nodes - {l}, l, nodes[l]);
  }

  /** An interval apart from all others contributes exactly its length. */
  lemma CoverSize(nodes: map<int, Node>, l: int)
    requires l in nodes && nodes[l].lo <= nodes[l].hi
    requires forall m | m in nodes && m != l :: Apart(nodes[l], nodes[m])
    ensures |Cover(nodes)| == |Cover(nodes - {l})| + nodes[l].hi - nodes[l].lo + 1
    ensures Cover(nodes) == Cover(nodes - {l}) + Range(nodes[l].lo, nodes[l].hi)
    ensures Cover(nodes - {l}) !! Range(nodes[l].lo, nodes[l].hi)
  {
    CoverRemove(nodes, l);
    RangeSize(nodes[l].lo, nodes[l].hi);
    assert Cover(nodes - {l}) !! Range(nodes[l].lo, nodes[l].hi);
  }
}
