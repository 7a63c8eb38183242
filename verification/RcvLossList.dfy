/** The receiver's loss list: the same circular table as the sender's, linked both ways. */
module RcvLossLists {
  import opened Basics
  import opened SeqNo
  import opened Intervals
  import opened LossTables
  import opened Naks

  /** next and prior are each other's inverse on the occupied slots, from head h to tail t. */
  ghost predicate Mutual(next: seq<int>, prior: seq<int>, slots: set<int>, h: int, t: int) {
    && |prior| == |next|
    && (forall l | l in slots :: 0 <= l < |next|)
    && (slots != {} ==> h in slots && t in slots)
    && (forall l {:trigger next[l]} | l in slots ::
          && (next[l] == -1 <==> l == t)
          && (next[l] != -1 ==> next[l] in slots && prior[next[l]] == l))
    && (forall l {:trigger prior[l]} | l in slots ::
          && (prior[l] == -1 <==> l == h)
          && (prior[l] != -1 ==> prior[l] in slots && next[prior[l]] == l))
  }

  lemma MutualFacts(next: seq<int>, prior: seq<int>, slots: set<int>, h: int, t: int, l: int)
    requires Mutual(next, prior, slots, h, t) && l in slots
    ensures |prior| == |next| && 0 <= l < |next| && t in slots && h in slots && 0 <= t < |next| && 0 <= h < |next|
    ensures next[l] == -1 <==> l == t
    ensures next[l] != -1 ==> 0 <= next[l] < |next| && next[l] in slots && prior[next[l]] == l
    ensures prior[l] == -1 <==> l == h
    ensures prior[l] != -1 ==> 0 <= prior[l] < |next| && prior[l] in slots && next[prior[l]] == l
  {
  }

  /** The back link of the slot after a change, when there is such a slot. */
  function BackLink(prior: seq<int>, n: int, l: int): (r: seq<int>)
    ensures |r| == |prior|
  {
    if 0 <= n < |prior| then prior[n := l] else prior
  }

  lemma MutualInsert(next: seq<int>, prior: seq<int>, slots: set<int>, h: int, t: int, i: int, loc: int)
    requires Mutual(next, prior, slots, h, t) && i in slots && loc !in slots && 0 <= loc < |next|
    ensures 0 <= i < |next|
    ensures Mutual(next[loc := next[i]][i := loc], BackLink(prior[loc := i], next[i], loc),
                   slots + {loc}, h, if i == t then loc else t)
  {
  }

  lemma MutualUnlink(next: seq<int>, prior: seq<int>, slots: set<int>, h: int, t: int, l: int)
    requires Mutual(next, prior, slots, h, t) && l in slots && (h == t ==> slots == {h})
    ensures 0 <= l < |next|
    ensures Mutual(BackLink(next, prior[l], next[l]), BackLink(prior, next[l], prior[l]), slots - {l},
                   if l == h then next[l] else h, if l == t then prior[l] else t)
  {
  }

  lemma OnlyNode(next: seq<int>, prior: seq<int>, nodes: map<int, Node>, h: int, t: int, size: int)
    requires Linked(next, nodes, h) && Mutual(next, prior, nodes.Keys, h, t)
    requires Placed(nodes, size) && Disjoint(nodes) && h == t && h in nodes
    ensures nodes.Keys == {h}
  {
    MutualFacts(next, prior, nodes.Keys, h, t, h);
    assert Follows(nodes, h, next[h]);
    forall m | m in nodes
      ensures m == h
    {
      assert nodes[m].lo <= nodes[h].lo <= nodes[m].lo;
    }
  }

  /** Taking the interval in slot l out of the forward chain. */
  lemma UnlinkLinks(next: seq<int>, prior: seq<int>, nodes: map<int, Node>, h: int, t: int, l: int, size: int)
    requires Linked(next, nodes, h) && Mutual(next, prior, nodes.Keys, h, t) && l in nodes
    requires Placed(nodes, size) && Disjoint(nodes)
    ensures 0 <= l < |next|
    ensures Linked(BackLink(next, prior[l], next[l]), nodes - {l}, if l == h then next[l] else h)
  {
    MutualFacts(next, prior, nodes.Keys, h, t, l);
    if l == h {
      DropLinks(next, nodes, h, size);
    } else {
      var after := nodes - {l};
      var next' := BackLink(next, prior[l], next[l]);
      assert Follows(nodes, l, next[l]);
      forall m | m in after
        ensures Follows(after, m, next'[m])
      {
        assert Follows(nodes, m, next[m]);
      }
    }
  }

  /** What a removal leaves of the arrays and the chain. */
  lemma UnlinkStep(data1: seq<int>, data2: seq<int>, next: seq<int>, prior: seq<int>, nodes: map<int, Node>,
                   h: int, t: int, l: int, size: int)
    requires |data1| == |data2| == |next| == size && Placed(nodes, size) && Disjoint(nodes)
    requires Stored(data1, data2, nodes) && Linked(next, nodes, h)
    requires Mutual(next, prior, nodes.Keys, h, t) && l in nodes
    ensures 0 <= l < size && |prior| == size && h in nodes
    ensures prior[l] == -1 <==> l == h
    ensures next[l] == -1 <==> l == t
    ensures next[l] != -1 ==> 0 <= next[l] < size
    ensures prior[l] != -1 ==> 0 <= prior[l] < size
    ensures l == h == t ==> (nodes - {l}).Keys == {}
    ensures var after := nodes - {l};
      && Placed(after, size) && Disjoint(after) && Stored(data1[l := -1], data2[l := -1], after)
      && Linked(BackLink(next, prior[l], next[l]), after, if l == h then next[l] else h)
      && Mutual(BackLink(next, prior[l], next[l]), BackLink(prior, next[l], prior[l]), after.Keys,
                if l == h then next[l] else h, if l == t then prior[l] else t)
      && Cover(nodes) == Cover(after) + Range(nodes[l].lo, nodes[l].hi)
      && Cover(after) !! Range(nodes[l].lo, nodes[l].hi)
      && |Cover(after)| == |Cover(nodes)| - (nodes[l].hi - nodes[l].lo + 1)
  {
    ReadSlot(data1, data2, next, nodes, h, l, size);
    ReadSlot(data1, data2, next, nodes, h, h, size);
    MutualFacts(next, prior, nodes.Keys, h, t, l);
    if h == t { OnlyNode(next, prior, nodes, h, t, size); }
    hide Placed, Disjoint, Stored, Linked, Cover, Range, Mutual, BackLink, Follows;
    MutualUnlink(next, prior, nodes.Keys, h, t, l);
    UnlinkLinks(next, prior, nodes, h, t, l, size);
    DropCover(nodes, l, size);
    DropShape(nodes, l, size);
    DropStored(data1, data2, nodes, l);
    assert (nodes - {l}).Keys == nodes.Keys - {l};
  }

  lemma RangeFirst(a: int, b: int)
    requires a <= b
    ensures Range(a, b) == Range(a + 1, b) + {a} && a !in Range(a + 1, b)
    ensures Range(a, b) == Range(a, b - 1) + {b} && b !in Range(a, b - 1)
  {
  }

  /** A set made of c and r loses the one element that r' lacks. */
  lemma LessOne(s: set<int>, s': set<int>, c: set<int>, r: set<int>, r': set<int>, a: int)
    requires s == c + r && c !! r && r == r' + {a} && a !in r' && s' == c + r'
    ensures s == s' + {a} && a !in s' && |s'| == |s| - 1
  {
  }

  /** The interval in slot i gives up its last counter. */
  lemma ShrinkStep(data1: seq<int>, data2: seq<int>, next: seq<int>, nodes: map<int, Node>,
                   h: int, i: int, size: int)
    requires |data1| == |data2| == |next| == size && Placed(nodes, size) && Disjoint(nodes)
    requires Stored(data1, data2, nodes) && Linked(next, nodes, h)
    requires i in nodes && 0 <= i < size && nodes[i].lo < nodes[i].hi
    ensures var n := Node(nodes[i].lo, nodes[i].hi - 1);
      var after := nodes[i := n];
      && Placed(after, size) && Disjoint(after) && Linked(next, after, h)
      && Stored(data1, data2[i := SecondOf(n)], after) && after.Keys == nodes.Keys
      && Cover(nodes) == Cover(after) + {nodes[i].hi} && nodes[i].hi !in Cover(after)
      && |Cover(after)| == |Cover(nodes)| - 1
  {
    var n := Node(nodes[i].lo, nodes[i].hi - 1);
    ShrinkShape(nodes, i, n, size);
    ExtendLinks(next, nodes, h, i, n);
    ExtendStored(data1, data2, nodes, i, n);
    ShrinkCover(nodes, i, n);
  }

  lemma ShrinkShape(nodes: map<int, Node>, i: int, n: Node, size: int)
    requires i in nodes && Placed(nodes, size) && Disjoint(nodes)
    requires n.lo == nodes[i].lo <= n.hi <= nodes[i].hi
    ensures Placed(nodes[i := n], size) && Disjoint(nodes[i := n])
  {
    var after := nodes[i := n];
    forall l, m | l in after && m in after
      ensures SlotsAligned(after, l, m, size)
    {
      assert SlotsAligned(nodes, l, m, size);
    }
  }

  lemma ShrinkCover(nodes: map<int, Node>, i: int, n: Node)
    requires i in nodes && Disjoint(nodes) && n.lo == nodes[i].lo && n.hi == nodes[i].hi - 1 && n.lo <= n.hi
    ensures Cover(nodes) == Cover(nodes[i := n]) + {nodes[i].hi} && nodes[i].hi !in Cover(nodes[i := n])
    ensures |Cover(nodes[i := n])| == |Cover(nodes)| - 1
  {
    hide Cover, Range;
    CoverSize(nodes, i);
    assert nodes[i := n] - {i} == nodes - {i};
    RangeFirst(n.lo, nodes[i].hi);
    CoverRemove(nodes[i := n], i);
    hide *;
    LessOne(Cover(nodes), Cover(nodes[i := n]), Cover(nodes - {i}), Range(n.lo, nodes[i].hi),
            Range(n.lo, n.hi), nodes[i].hi);
  }

  /** Without intervals, stale ends do no harm. */
  lemma MutualEmpty(next: seq<int>, prior: seq<int>, h: int, t: int)
    requires |next| == |prior|
    ensures Mutual(next, prior, {}, h, t)
  {
  }

  lemma MutualSingle(next: seq<int>, prior: seq<int>)
    requires |next| == |prior| > 0
    ensures Mutual(next[0 := -1], prior[0 := -1], {0}, 0, 0)
  {
  }

  lemma AddTurn(x: int, n: int)
    requires n > 0
    ensures (x + n) % n == x % n
  {
    var a, b := x / n, (x + n) / n;
    assert x == a * n + x % n;
    assert x + n == b * n + (x + n) % n;
    assert (b - a - 1) * n == x % n - (x + n) % n;
    Multiple(b - a - 1, n);
  }

  lemma RoomAtEnd(nodes: map<int, Node>, n: Node, size: int)
    requires Placed(nodes, size) && n.lo <= n.hi < n.lo + size
    requires forall x | x in Cover(nodes) :: x < n.lo && n.hi - x < size
    ensures Roomy(nodes, n, size)
    ensures forall m | m in nodes :: nodes[m].hi < n.lo
  {
    EndsInCover(nodes, size);
  }

  lemma EndFollows(nodes: map<int, Node>, l: int, n: Node)
    requires l in nodes && Follows(nodes, l, -1) && n.lo == nodes[l].lo
    ensures Follows(nodes[l := n], l, -1)
  {
  }

  lemma RangeFromMember(s: set<int>, a: int, b: int)
    requires a - 1 in s && a <= b && forall x | x in s :: x < a
    ensures s + Range(a - 1, b) == s + Range(a, b)
    ensures |s + Range(a, b)| == |s| + (b - a + 1)
  {
    RangeSize(a, b);
    assert s !! Range(a, b);
  }

  /** Appended behind the last interval, a new one overlaps nothing. */
  lemma LastIsSettled(next: seq<int>, nodes: map<int, Node>, h: int, t: int, loc: int, n: Node)
    requires Linked(next, nodes, h) && t in nodes && loc !in nodes && 0 <= t < |next| && next[t] == -1
    requires DisjointUpTo(nodes[loc := n], loc) && nodes[t].hi < n.lo <= n.hi
    requires forall m | m in nodes :: nodes[m].lo <= nodes[m].hi
    ensures Disjoint(nodes[loc := n])
    ensures Cover(nodes[loc := n]) == Cover(nodes) + Range(n.lo, n.hi)
    ensures |Cover(nodes[loc := n])| == |Cover(nodes)| + (n.hi - n.lo + 1)
  {
    var after := nodes[loc := n];
    assert Follows(nodes, t, next[t]);
    assert Follows(after, loc, -1);
    SettledShape(after, loc, -1);
    assert after - {loc} == nodes;
    CoverInsert(nodes, loc, n);
  }

  lemma LinkedAt(next: seq<int>, nodes: map<int, Node>, h: int, m: int)
    requires Linked(next, nodes, h) && m in nodes
    ensures 0 <= m < |next| && Follows(nodes, m, next[m])
  {
    assert next[m] == next[m];
  }

  lemma LinkedIntro(next: seq<int>, nodes: map<int, Node>, h: int)
    requires h != -1 && h in nodes && forall m | m in nodes :: nodes[h].lo <= nodes[m].lo
    requires forall m | m in nodes :: 0 <= m < |next| && Follows(nodes, m, next[m])
    ensures Linked(next, nodes, h)
  {
    hide Follows;
  }

  /** The link of slot m after the interval of slot l has moved to slot i. */
  lemma MovedNext(next: seq<int>, prior: seq<int>, slots: set<int>, h: int, t: int, l: int, i: int, m: int)
    requires Mutual(next, prior, slots, h, t) && l in slots && i !in slots && 0 <= i < |next|
    requires m == i || m in slots
    ensures 0 <= l < |next| && 0 <= m < |next|
    ensures BackLink(next[i := next[l]], prior[l], i)[m]
      == if m == i then next[l] else if next[m] == l then i else next[m]
  {
    MutualFacts(next, prior, slots, h, t, l);
    if m != i {
      MutualFacts(next, prior, slots, h, t, m);
    }
    hide Mutual;
  }

  /** The chain with the interval of slot l moved, without its first counter, to slot i. */
  lemma MoveLinked(next: seq<int>, prior: seq<int>, nodes: map<int, Node>, h: int, t: int, l: int, i: int, n: Node)
    requires Linked(next, nodes, h) && Mutual(next, prior, nodes.Keys, h, t) && l in nodes && i !in nodes
    requires 0 <= i < |next| && (forall m | m in nodes :: nodes[m].lo <= nodes[m].hi) && Disjoint(nodes)
    requires nodes[l].lo < n.lo <= nodes[l].hi
    ensures 0 <= l < |next|
    ensures Linked(BackLink(next[i := next[l]], prior[l], i), (nodes - {l})[i := n], if l == h then i else h)
  {
    hide Linked, Mutual, Follows, Disjoint, BackLink;
    LinkedAt(next, nodes, h, l);
    MutualFacts(next, prior, nodes.Keys, h, t, l);
    var after := (nodes - {l})[i := n];
    var next' := BackLink(next[i := next[l]], prior[l], i);
    forall m | m in after
      ensures 0 <= m < |next'| && Follows(after, m, next'[m])
    {
      MoveLinkedAt(next, prior, nodes, h, t, l, i, n, m);
    }
    HeadMoved(next, nodes, h, l, i, n);
    LinkedIntro(next', after, if l == h then i else h);
  }

  lemma MoveLinkedAt(next: seq<int>, prior: seq<int>, nodes: map<int, Node>, h: int, t: int, l: int, i: int, n: Node,
                     m: int)
    requires Linked(next, nodes, h) && Mutual(next, prior, nodes.Keys, h, t) && l in nodes && i !in nodes
    requires 0 <= i < |next| && (forall m | m in nodes :: nodes[m].lo <= nodes[m].hi) && Disjoint(nodes)
    requires nodes[l].lo < n.lo <= nodes[l].hi && (m == i || (m in nodes && m != l))
    ensures 0 <= l < |next| && 0 <= m < |BackLink(next[i := next[l]], prior[l], i)|
    ensures Follows((nodes - {l})[i := n], m, BackLink(next[i := next[l]], prior[l], i)[m])
  {
    hide Linked, Mutual, Follows, Disjoint;
    LinkedAt(next, nodes, h, l);
    MovedNext(next, prior, nodes.Keys, h, t, l, i, m);
    hide BackLink;
    if m == i {
      FollowsFromMoved(nodes, l, i, n, next[l]);
    } else {
      LinkedAt(next, nodes, h, m);
      FollowsMoved(nodes, m, next[m], l, i, n);
    }
  }

  lemma HeadMoved(next: seq<int>, nodes: map<int, Node>, h: int, l: int, i: int, n: Node)
    requires Linked(next, nodes, h) && l in nodes && i !in nodes && i != -1
    requires (forall m | m in nodes :: nodes[m].lo <= nodes[m].hi) && Disjoint(nodes)
    requires nodes[l].lo < n.lo <= nodes[l].hi
    ensures var after := (nodes - {l})[i := n];
      var h' := if l == h then i else h;
      h' != -1 && h' in after && forall m | m in after :: after[h'].lo <= after[m].lo
  {
  }

  lemma FollowsFromMoved(nodes: map<int, Node>, l: int, i: int, n: Node, k: int)
    requires l in nodes && i !in nodes && Follows(nodes, l, k) && nodes[l].lo < n.lo <= nodes[l].hi
    requires (forall m | m in nodes :: nodes[m].lo <= nodes[m].hi) && Disjoint(nodes)
    ensures Follows((nodes - {l})[i := n], i, k)
  {
  }

  lemma FollowsMoved(nodes: map<int, Node>, m: int, k: int, l: int, i: int, n: Node)
    requires l in nodes && m in nodes && m != l && i !in nodes && i != -1 && l != -1 && Follows(nodes, m, k)
    requires nodes[l].lo < n.lo <= nodes[l].hi
    requires (forall m | m in nodes :: nodes[m].lo <= nodes[m].hi) && Disjoint(nodes)
    ensures Follows((nodes - {l})[i := n], m, if k == l then i else k)
  {
    forall p | p in nodes && p != l
      ensures nodes[p].hi < nodes[l].lo || n.lo < nodes[p].lo
    {
      assert Apart(nodes[l], nodes[p]);
    }
  }

  lemma MoveMutual(next: seq<int>, prior: seq<int>, slots: set<int>, h: int, t: int, l: int, i: int)
    requires Mutual(next, prior, slots, h, t) && l in slots && i !in slots && 0 <= i < |next|
    requires forall m | m in slots && 0 <= m < |next| :: next[m] != m
    ensures 0 <= l < |next|
    ensures Mutual(BackLink(next[i := next[l]], prior[l], i), BackLink(prior[i := prior[l]], next[l], i),
                   slots - {l} + {i}, if l == h then i else h, if l == t then i else t)
  {
    MutualFacts(next, prior, slots, h, t, l);
    var next' := BackLink(next[i := next[l]], prior[l], i);
    var prior' := BackLink(prior[i := prior[l]], next[l], i);
    assert |next'| == |prior'| == |next|;
    assert h in slots && t in slots;
    hide Mutual, BackLink;
    forall m | m in slots - {l} + {i}
      ensures 0 <= m < |next'|
      ensures next'[m] == -1 <==> m == (if l == t then i else t)
      ensures prior'[m] == -1 <==> m == (if l == h then i else h)
      ensures next'[m] != -1 ==> next'[m] in slots - {l} + {i} && prior'[next'[m]] == m
      ensures prior'[m] != -1 ==> prior'[m] in slots - {l} + {i} && next'[prior'[m]] == m
    {
      MoveMutualAt(next, prior, slots, h, t, l, i, m);
    }
    MutualIntro(next', prior', slots - {l} + {i}, if l == h then i else h, if l == t then i else t);
  }

  lemma MutualIntro(next: seq<int>, prior: seq<int>, slots: set<int>, h: int, t: int)
    requires |prior| == |next| && h in slots && t in slots
    requires forall l | l in slots :: 0 <= l < |next|
    requires forall l {:trigger next[l]} | l in slots ::
      && (next[l] == -1 <==> l == t) && (next[l] != -1 ==> next[l] in slots && prior[next[l]] == l)
    requires forall l {:trigger prior[l]} | l in slots ::
      && (prior[l] == -1 <==> l == h) && (prior[l] != -1 ==> prior[l] in slots && next[prior[l]] == l)
    ensures Mutual(next, prior, slots, h, t)
  {
  }

  lemma MoveMutualAt(next: seq<int>, prior: seq<int>, slots: set<int>, h: int, t: int, l: int, i: int, m: int)
    requires Mutual(next, prior, slots, h, t) && l in slots && i !in slots && 0 <= i < |next|
    requires forall m | m in slots && 0 <= m < |next| :: next[m] != m
    requires m in slots - {l} + {i}
    ensures 0 <= l < |next| && 0 <= m < |next|
    ensures var next' := BackLink(next[i := next[l]], prior[l], i);
      var prior' := BackLink(prior[i := prior[l]], next[l], i);
      && (next'[m] == -1 <==> m == (if l == t then i else t))
      && (prior'[m] == -1 <==> m == (if l == h then i else h))
      && (next'[m] != -1 ==> next'[m] in slots - {l} + {i} && prior'[next'[m]] == m)
      && (prior'[m] != -1 ==> prior'[m] in slots - {l} + {i} && next'[prior'[m]] == m)
  {
    MoveNextAt(next, prior, slots, h, t, l, i, m);
    MoveNextAt(prior, next, slots, t, h, l, i, m);
    hide BackLink;
  }

  /** One direction of the links; the other one is the same with next and prior exchanged. */
  lemma MoveNextAt(next: seq<int>, prior: seq<int>, slots: set<int>, h: int, t: int, l: int, i: int, m: int)
    requires Mutual(next, prior, slots, h, t) && l in slots && i !in slots && 0 <= i < |next|
    requires forall m | m in slots && 0 <= m < |next| :: next[m] != m
    requires m in slots - {l} + {i}
    ensures 0 <= l < |next| && 0 <= m < |next|
    ensures var next' := BackLink(next[i := next[l]], prior[l], i);
      var prior' := BackLink(prior[i := prior[l]], next[l], i);
      && (next'[m] == -1 <==> m == (if l == t then i else t))
      && (next'[m] != -1 ==> next'[m] in slots - {l} + {i} && prior'[next'[m]] == m)
  {
    hide Mutual, BackLink;
    MutualFacts(next, prior, slots, h, t, l);
    MutualFacts(next, prior, slots, h, t, if m == i then l else m);
    MovedNext(next, prior, slots, h, t, l, i, m);
    var k := if m == i then next[l] else if next[m] == l then i else next[m];
    if k != -1 {
      MutualSwap(next, prior, slots, h, t);
      MovedNext(prior, next, slots, t, h, l, i, k);
    }
  }

  lemma MutualSwap(next: seq<int>, prior: seq<int>, slots: set<int>, h: int, t: int)
    requires Mutual(next, prior, slots, h, t)
    ensures Mutual(prior, next, slots, t, h)
  {
  }

  lemma MoveShape(data1: seq<int>, data2: seq<int>, nodes: map<int, Node>, l: int, i: int, n: Node, size: int)
    requires |data1| == |data2| == size && Placed(nodes, size) && Disjoint(nodes) && Stored(data1, data2, nodes)
    requires l in nodes && 0 <= l < size && nodes[l].lo < nodes[l].hi && i == (l + 1) % size
    requires n == Node(nodes[l].lo + 1, nodes[l].hi)
    ensures i !in nodes && 0 <= i < size && data2[i] == -1
    ensures var after := (nodes - {l})[i := n];
      && Placed(after, size) && Disjoint(after)
      && Stored(data1[i := Wrap(n.lo)][l := -1], data2[i := SecondOf(n)][l := -1], after)
  {
    WholeTurn(l, size);
    NextSlotFree(nodes, l, l, nodes[l].lo, l, i, size);
    SplitShape(nodes, l, i, nodes[l].lo, size);
    var mid := Split(nodes, l, i, nodes[l].lo);
    DropShape(mid, l, size);
    assert mid - {l} == (nodes - {l})[i := n];
    MoveStored(data1, data2, nodes, l, i, n, size);
    hide *;
  }

  lemma MoveStored(data1: seq<int>, data2: seq<int>, nodes: map<int, Node>, l: int, i: int, n: Node, size: int)
    requires |data1| == |data2| == size && Stored(data1, data2, nodes)
    requires l in nodes && 0 <= l < size && i !in nodes && 0 <= i < size && i != l
    ensures data2[i] == -1
    ensures Stored(data1[i := Wrap(n.lo)][l := -1], data2[i := SecondOf(n)][l := -1], (nodes - {l})[i := n])
  {
  }

  lemma MoveCover(nodes: map<int, Node>, l: int, i: int, n: Node)
    requires Disjoint(nodes) && l in nodes && i !in nodes && nodes[l].lo < nodes[l].hi
    requires n == Node(nodes[l].lo + 1, nodes[l].hi)
    ensures var a, after := nodes[l].lo, (nodes - {l})[i := n];
      Cover(nodes) == Cover(after) + {a} && a !in Cover(after) && |Cover(after)| == |Cover(nodes)| - 1
  {
    CoverSize(nodes, l);
    CoverInsert(nodes - {l}, i, n);
    RangeFirst(nodes[l].lo, nodes[l].hi);
    hide *;
    LessOne(Cover(nodes), Cover((nodes - {l})[i := n]), Cover(nodes - {l}), Range(nodes[l].lo, nodes[l].hi),
            Range(n.lo, n.hi), nodes[l].lo);
  }

  lemma MoveStep(data1: seq<int>, data2: seq<int>, next: seq<int>, prior: seq<int>, nodes: map<int, Node>,
                 h: int, t: int, l: int, i: int, size: int)
    requires |data1| == |data2| == |next| == size && Placed(nodes, size) && Disjoint(nodes)
    requires Stored(data1, data2, nodes) && Linked(next, nodes, h)
    requires Mutual(next, prior, nodes.Keys, h, t) && l in nodes && nodes[l].lo < nodes[l].hi
    requires 0 <= l < size && i == (l + 1) % size
    ensures i !in nodes && 0 <= i < size && data2[i] == -1 && |prior| == size
    ensures var n := Node(nodes[l].lo + 1, nodes[l].hi);
      var after := (nodes - {l})[i := n];
      && after.Keys == nodes.Keys - {l} + {i} && Placed(after, size) && Disjoint(after)
      && Linked(BackLink(next[i := next[l]], prior[l], i), after, if l == h then i else h)
      && Mutual(BackLink(next[i := next[l]], prior[l], i), BackLink(prior[i := prior[l]], next[l], i), after.Keys,
                if l == h then i else h, if l == t then i else t)
      && Stored(data1[i := Wrap(n.lo)][l := -1], data2[i := SecondOf(n)][l := -1], after)
      && Cover(nodes) == Cover(after) + {nodes[l].lo} && nodes[l].lo !in Cover(after)
      && |Cover(after)| == |Cover(nodes)| - 1
  {
    var n := Node(nodes[l].lo + 1, nodes[l].hi);
    MutualFacts(next, prior, nodes.Keys, h, t, l);
    PlacedEnds(nodes, size);
    NoSelfLink(next, nodes, h);
    assert (nodes - {l})[i := n].Keys == nodes.Keys - {l} + {i};
    MoveShape(data1, data2, nodes, l, i, n, size);
    hide *;
    MoveLinked(next, prior, nodes, h, t, l, i, n);
    MoveMutual(next, prior, nodes.Keys, h, t, l, i);
    MoveCover(nodes, l, i, n);
  }

  lemma NoSelfLink(next: seq<int>, nodes: map<int, Node>, h: int)
    requires Linked(next, nodes, h)
    ensures forall m | m in nodes && 0 <= m < |next| :: next[m] != m
  {
    forall m | m in nodes && 0 <= m < |next|
      ensures next[m] != m
    {
      assert Follows(nodes, m, next[m]);
    }
  }

  lemma PlacedEnds(nodes: map<int, Node>, size: int)
    requires Placed(nodes, size)
    ensures forall m | m in nodes :: nodes[m].lo <= nodes[m].hi
  {
  }

  lemma InCover(nodes: map<int, Node>, i: int, a: int)
    requires i in nodes && nodes[i].lo <= a <= nodes[i].hi
    ensures a in Cover(nodes)
  {
    assert a in Range(nodes[i].lo, nodes[i].hi);
  }

  lemma SmallMod(x: int, n: int)
    requires 0 <= x < 2 * n
    ensures x % n == if x < n then x else x - n
  {
  }

  /** How many slots i lies after h, going round the circle. */
  ghost function Distance(h: int, i: int, size: int): int {
    if i >= h then i - h else i - h + size
  }

  /** The slot before slot i, going round. */
  function BackSlot(i: int, size: int): (r: int)
    requires 0 <= i < size
    ensures r == if i == 0 then size - 1 else i - 1
  {
    (i - 1 + size) % size
  }

  /** No interval starts above c and below a, as far as the table reaches. */
  ghost predicate NoneBetween(nodes: map<int, Node>, c: int, a: int, limit: int) {
    a < limit ==> forall m | m in nodes :: nodes[m].lo < a ==> nodes[m].lo <= c
  }

  lemma DistanceIsOffset(nodes: map<int, Node>, h: int, m: int, size: int)
    requires Placed(nodes, size) && h in nodes && m in nodes && nodes[h].lo <= nodes[m].lo
    ensures Distance(h, m, size) == nodes[m].lo - nodes[h].lo
  {
    assert SlotsAligned(nodes, m, h, size);
  }

  lemma ScanStart(nodes: map<int, Node>, h: int, a: int, slot: int, size: int)
    requires Placed(nodes, size) && h in nodes && nodes[h].lo < a
    requires 0 <= h < size && 0 <= slot < size && slot == (h + (a - nodes[h].lo)) % size
    ensures var i := if slot == 0 then size - 1 else slot - 1;
      && NoneBetween(nodes, nodes[h].lo + Distance(h, i, size), a, nodes[h].lo + size)
      && (a < nodes[h].lo + size ==> nodes[h].lo + Distance(h, i, size) < a)
  {
    if a < nodes[h].lo + size {
      SmallMod(h + (a - nodes[h].lo), size);
    }
  }

  lemma SkipEmpty(data1: seq<int>, data2: seq<int>, nodes: map<int, Node>, h: int, i: int, a: int, size: int)
    requires Placed(nodes, size) && Stored(data1, data2, nodes) && |data1| == size && h in nodes
    requires forall m | m in nodes :: nodes[h].lo <= nodes[m].lo
    requires 0 <= i < size && data1[i] == -1
    requires NoneBetween(nodes, nodes[h].lo + Distance(h, i, size), a, nodes[h].lo + size)
    ensures i !in nodes && i != h
    ensures NoneBetween(nodes, nodes[h].lo + Distance(h, i, size) - 1, a, nodes[h].lo + size)
  {
    forall m | m in nodes
      ensures nodes[m].lo != nodes[h].lo + Distance(h, i, size)
    {
      DistanceIsOffset(nodes, h, m, size);
    }
  }

  lemma ScanEnd(next: seq<int>, nodes: map<int, Node>, h: int, i: int, a: int, size: int)
    requires Placed(nodes, size) && Disjoint(nodes) && Linked(next, nodes, h) && h in nodes && i in nodes
    requires nodes[h].lo < a && forall m | m in nodes :: nodes[m].lo != a
    requires NoneBetween(nodes, nodes[h].lo + Distance(h, i, size), a, nodes[h].lo + size)
    requires a < nodes[h].lo + size ==> nodes[h].lo + Distance(h, i, size) < a
    ensures nodes[i].lo < a
    ensures a in Cover(nodes) ==> a <= nodes[i].hi
  {
    DistanceIsOffset(nodes, h, i, size);
    if a in Cover(nodes) {
      var m :| m in nodes && a in Range(nodes[m].lo, nodes[m].hi);
      assert nodes[m].hi - nodes[h].lo < size;
    }
  }

  /** The effect of cutting counter a out of the interval in slot i. */
  lemma SplitOutStep(data1: seq<int>, data2: seq<int>, next: seq<int>, prior: seq<int>, nodes: map<int, Node>,
                     h: int, t: int, i: int, loc: int, a: int, size: int)
    requires |data1| == |data2| == |next| == size && Placed(nodes, size) && Disjoint(nodes)
    requires Stored(data1, data2, nodes) && Linked(next, nodes, h) && Mutual(next, prior, nodes.Keys, h, t)
    requires i in nodes && 0 <= i < size && nodes[i].lo < a < nodes[i].hi && 0 <= loc < size && loc !in nodes
    requires forall m | m in nodes :: Aligned(loc, m, a + 1 - nodes[m].lo, size)
    ensures data2[loc] == -1
    ensures var after := nodes[i := Node(nodes[i].lo, a - 1)][loc := Node(a + 1, nodes[i].hi)];
      && Placed(after, size) && Disjoint(after) && Linked(next[loc := next[i]][i := loc], after, h)
      && Mutual(next[loc := next[i]][i := loc], BackLink(prior[loc := i], next[i], loc), after.Keys,
                h, if i == t then loc else t)
      && Stored(data1[loc := Wrap(a + 1)], data2[loc := SecondOf(after[loc])][i := SecondOf(after[i])], after)
      && Cover(nodes) == Cover(after) + {a} && a !in Cover(after) && |Cover(after)| == |Cover(nodes)| - 1
  {
    var low := Node(nodes[i].lo, a - 1);
    SplitOutMap(nodes, i, loc, a);
    PlacedEnds(nodes, size);
    hide Placed, Disjoint, Stored, Linked, Follows, Cover, Range, Aligned, Mutual, BackLink, Split;
    var mid := Split(nodes, i, loc, a);
    MutualInsert(next, prior, nodes.Keys, h, t, i, loc);
    SplitLinks(next, nodes, h, i, loc, a);
    ExtendLinks(next[loc := next[i]][i := loc], mid, h, i, low);
    SplitShape(nodes, i, loc, a, size);
    ShrinkShape(mid, i, low, size);
    SplitOutStored(data1, data2, nodes, i, loc, a);
    SplitCover(nodes, i, loc, a);
    ShrinkCover(mid, i, low);
  }

  lemma SplitOutStored(data1: seq<int>, data2: seq<int>, nodes: map<int, Node>, i: int, loc: int, a: int)
    requires Stored(data1, data2, nodes) && i in nodes && nodes[i].lo < a < nodes[i].hi
    requires loc !in nodes && 0 <= loc < |data1| && 0 <= i < |data1|
    ensures data2[loc] == -1
    ensures var after := nodes[i := Node(nodes[i].lo, a - 1)][loc := Node(a + 1, nodes[i].hi)];
      Stored(data1[loc := Wrap(a + 1)], data2[loc := SecondOf(after[loc])][i := SecondOf(after[i])], after)
  {
  }

  lemma SplitOutMap(nodes: map<int, Node>, i: int, loc: int, a: int)
    requires i in nodes && loc !in nodes
    ensures var mid := Split(nodes, i, loc, a);
      var after := nodes[i := Node(nodes[i].lo, a - 1)][loc := Node(a + 1, nodes[i].hi)];
      && i in mid && mid[i] == Node(nodes[i].lo, a) && mid[i := Node(nodes[i].lo, a - 1)] == after
      && after.Keys == nodes.Keys + {loc}
  {
  }

  /** The slots still to be visited from slot p on. */
  ghost function Remaining(nodes: map<int, Node>, p: int): set<int>
    requires p == -1 || p in nodes
  {
    set m | m in nodes && p != -1 && nodes[m].lo >= nodes[p].lo
  }

  /** No interval before slot p meets [a, b]. */
  ghost predicate Searched(nodes: map<int, Node>, p: int, a: int, b: int)
    requires p == -1 || p in nodes
  {
    forall m | m in nodes :: (p == -1 || nodes[m].lo < nodes[p].lo) ==> nodes[m].hi < a || b < nodes[m].lo
  }

  lemma SearchFrom(next: seq<int>, nodes: map<int, Node>, h: int, p: int)
    requires Linked(next, nodes, h) && p == h && h in nodes
    ensures forall a, b :: Searched(nodes, p, a, b)
  {
  }

  lemma SearchStep(nodes: map<int, Node>, p: int, n: int, a: int, b: int, size: int)
    requires p in nodes && Follows(nodes, p, n) && Searched(nodes, p, a, b)
    requires nodes[p].hi < a || b < nodes[p].lo
    requires p != -1 && Disjoint(nodes) && Placed(nodes, size)
    ensures n == -1 || n in nodes
    ensures Searched(nodes, n, a, b)
    ensures Remaining(nodes, n) < Remaining(nodes, p)
  {
    assert p in Remaining(nodes, p) && p !in Remaining(nodes, n);
    forall m | m in nodes && nodes[m].lo == nodes[p].lo
      ensures m == p
    {
    }
  }

  lemma SearchEnd(nodes: map<int, Node>, a: int, b: int)
    requires Searched(nodes, -1, a, b)
    ensures !exists x :: x in Cover(nodes) && a <= x <= b
  {
  }

  /** The counters of the intervals before slot p. */
  ghost function Reported(nodes: map<int, Node>, p: int): set<int>
    requires p == -1 || p in nodes
  {
    set m, x | m in nodes && (p == -1 || nodes[m].lo < nodes[p].lo) && x in Range(nodes[m].lo, nodes[m].hi) :: x
  }

  lemma ReportFrom(next: seq<int>, nodes: map<int, Node>, h: int, size: int)
    requires Linked(next, nodes, h) && Placed(nodes, size)
    ensures h == -1 || h in nodes
    ensures Reported(nodes, h) == {} && Covered([]) == {}
    ensures h == -1 ==> nodes == map[]
  {
  }

  lemma ReportStep(nodes: map<int, Node>, p: int, n: int, runs: seq<Node>, size: int)
    requires p in nodes && p != -1 && Follows(nodes, p, n) && Disjoint(nodes) && Placed(nodes, size)
    requires Covered(runs) == Reported(nodes, p)
    ensures n == -1 || n in nodes
    ensures Covered(runs + [nodes[p]]) == Reported(nodes, n)
    ensures Remaining(nodes, n) < Remaining(nodes, p)
  {
    assert p in Remaining(nodes, p) && p !in Remaining(nodes, n);
    CoveredAppend(runs, nodes[p]);
    forall m | m in nodes
      ensures (n == -1 || nodes[m].lo < nodes[n].lo) <==> (nodes[m].lo < nodes[p].lo || m == p)
    {
      if m != p { assert Apart(nodes[m], nodes[p]); }
    }
  }

  lemma CoveredAppend(runs: seq<Node>, n: Node)
    ensures Covered(runs + [n]) == Covered(runs) + Range(n.lo, n.hi)
  {
    forall x | x in Covered(runs) + Range(n.lo, n.hi)
      ensures x in Covered(runs + [n])
    {
      if x in Range(n.lo, n.hi) {
        assert (runs + [n])[|runs|] == n;
      } else {
        var i :| 0 <= i < |runs| && x in Range(runs[i].lo, runs[i].hi);
        assert (runs + [n])[i] == runs[i];
      }
    }
  }

  /** What has been reported is everything below some bound. */
  lemma ReportEnd(nodes: map<int, Node>, p: int, size: int) returns (bound: int)
    requires (p == -1 || p in nodes) && Disjoint(nodes) && Placed(nodes, size)
    ensures Reported(nodes, p) == set x | x in Cover(nodes) && x < bound
    ensures p == -1 ==> Reported(nodes, p) == Cover(nodes)
  {
    if p == -1 {
      assert Reported(nodes, p) == Cover(nodes);
      bound := UpperBound(Cover(nodes));
    } else {
      bound := nodes[p].lo;
      forall x | x in Cover(nodes) && x < bound
        ensures x in Reported(nodes, p)
      {
        var m :| m in nodes && x in Range(nodes[m].lo, nodes[m].hi);
        assert nodes[m].lo < nodes[p].lo;
      }
      forall x | x in Reported(nodes, p)
        ensures x in Cover(nodes) && x < bound
      {
        var m :| m in nodes && nodes[m].lo < nodes[p].lo && x in Range(nodes[m].lo, nodes[m].hi);
        assert Apart(nodes[m], nodes[p]);
      }
    }
  }

  lemma UpperBound(s: set<int>) returns (bound: int)
    ensures forall x | x in s :: x < bound
    ensures s == set x | x in s && x < bound
    decreases s
  {
    if x :| x in s {
      var b := UpperBound(s - {x});
      bound := if x < b then b else x + 1;
      forall y | y in s
        ensures y < bound
      {
        if y != x { assert y in s - {x}; }
      }
    } else {
      bound := 0;
    }
  }

  class RcvLossList {
    const size: int
    const data1: array<int>   // first sequence number of the interval in a slot, -1 when the slot is empty
    const data2: array<int>   // last sequence number, -1 when the interval is a single number
    const next: array<int>    // slot of the following interval, -1 at the end
    const prior: array<int>   // slot of the preceding interval, -1 at the start
    var head: int
    var tail: int
    var length: int

    ghost var nodes: map<int, Node>

    ghost predicate Arrays()
      reads this
    {
      && 0 < size < SEQ_TH
      && data1.Length == size && data2.Length == size && next.Length == size && prior.Length == size
      && data1 != data2 && data1 != next && data1 != prior && data2 != next && data2 != prior && next != prior
    }

    ghost predicate Valid()
      reads this, data1, data2, next, prior
    {
      && Arrays() && Placed(nodes, size) && Disjoint(nodes)
      && Stored(data1[..], data2[..], nodes) && Linked(next[..], nodes, head)
      && Mutual(next[..], prior[..], nodes.Keys, head, tail)
      && length == |Cover(nodes)|
    }

    /** The set the list stands for. */
    ghost function Contents(): set<int>
      reads this
    {
      Cover(nodes)
    }

    /** How many numbers are listed. */
    function GetLossLength(): (r: int)
      requires Valid()
      reads this, data1, data2, next, prior
      ensures r == |Contents()|
    {
      length
    }

    constructor (size: int)
      requires 0 < size < SEQ_TH
      ensures Valid() && Contents() == {} && this.size == size
      ensures fresh(data1) && fresh(data2) && fresh(next) && fresh(prior)
    {
      this.size := size;
      data1 := new int[size](_ => -1);
      data2 := new int[size](_ => -1);
      next := new int[size];
      prior := new int[size];
      head, tail, length := -1, -1, 0;
      nodes := map[];
      new;
      assert Cover(nodes) == {};
    }

    /** Appends the sequence numbers seqno1 to seqno2, which stand for the counters a to b. */
    method Insert(seqno1: int, seqno2: int, ghost a: int, ghost b: int)
      requires Valid() && a <= b < a + size && seqno1 == Wrap(a) && seqno2 == Wrap(b)
      requires forall x | x in Contents() :: x < a && b - x < size
      modifies this, data1, data2, next, prior
      ensures Valid() && Contents() == old(Contents()) + Range(a, b)
    {
      hide Placed, Disjoint, Stored, Linked, DisjointUpTo, Follows, Cover, Range, Wrap, Aligned, Mutual;
      EmptyCover(nodes, size);
      assert Contents() == Cover(nodes);
      if length == 0 {
        InsertFirst(seqno1, seqno2, Node(a, b));
        return;
      }
      RoomAtEnd(nodes, Node(a, b), size);
      HeadInTable(next[..], nodes, head);
      MutualFacts(next[..], prior[..], nodes.Keys, head, tail, head);
      ReadSlot(data1[..], data2[..], next[..], nodes, head, head, size);
      ReadSlot(data1[..], data2[..], next[..], nodes, head, tail, size);
      WrapCompare(nodes[head].lo, a);
      WrapStep(nodes[tail].hi);
      WrapCompare(nodes[tail].hi + 1, a);
      var offset := SeqOff(data1[head], seqno1);
      var loc := (head + offset) % size;
      AddTurn(head + offset, size);
      SlotOf(nodes, head, a, loc, size);
      if data2[tail] != -1 && IncSeq(data2[tail]) == seqno1 {
        ExtendTail(seqno2, a, b);
      } else {
        AppendNode(loc, seqno1, seqno2, Node(a, b));
      }
      WrapLength(a, b);
      length := length + SeqLen(seqno1, seqno2);
    }

    method InsertFirst(seqno1: int, seqno2: int, ghost n: Node)
      requires Valid() && nodes == map[] && n.lo <= n.hi < n.lo + size
      requires seqno1 == Wrap(n.lo) && seqno2 == Wrap(n.hi)
      modifies this, data1, data2, next, prior
      ensures Valid() && Contents() == old(Contents()) + Range(n.lo, n.hi)
    {
      hide Placed, Disjoint, Stored, Linked, DisjointUpTo, Follows, Cover, Range, Wrap, Aligned, Mutual;
      PutFirstStep(data1[..], data2[..], next[..], nodes, head, n, size);
      MutualSingle(next[..], prior[..]);
      head := 0;
      tail := 0;
      WriteNode(0, seqno1, seqno2, n);
      next[head] := -1;
      prior[head] := -1;
      WrapLength(n.lo, n.hi);
      length := length + SeqLen(seqno1, seqno2);
      nodes := map[0 := n];
      assert nodes.Keys == {0};
    }

    /** Moves the end of the last interval, which a continues, up to b. */
    method ExtendTail(seqno2: int, ghost a: int, ghost b: int)
      requires Valid() && tail in nodes && 0 <= tail < size && nodes[tail].hi == a - 1 && a <= b && seqno2 == Wrap(b)
      requires nodes[tail].lo < nodes[tail].hi && Roomy(nodes, Node(a, b), size)
      requires forall x | x in Contents() :: x < a
      modifies this`nodes, data2
      ensures Arrays() && Placed(nodes, size) && Disjoint(nodes)
      ensures Stored(data1[..], data2[..], nodes) && Linked(next[..], nodes, head)
      ensures Mutual(next[..], prior[..], nodes.Keys, head, tail)
      ensures Contents() == old(Contents()) + Range(a, b) && |Contents()| == old(|Contents()|) + (b - a + 1)
    {
      hide Placed, Disjoint, Stored, Linked, DisjointUpTo, Follows, Cover, Range, Wrap, Aligned, Mutual;
      ghost var n := Node(nodes[tail].lo, b);
      MutualFacts(next[..], prior[..], nodes.Keys, head, tail, tail);
      ExtendStep(data1[..], data2[..], next[..], nodes, head, tail, n, a - 1, size);
      ghost var after := nodes[tail := n];
      ReadSlot(data1[..], data2[..], next[..], nodes, head, tail, size);
      EndFollows(nodes, tail, n);
      SettledShape(after, tail, -1);
      assert Contents() == Cover(nodes);
      EndsInCover(nodes, size);
      RangeFromMember(Cover(nodes), a, b);
      assert after.Keys == nodes.Keys;
      data2[tail] := seqno2;
      nodes := after;
    }

    /** Starts a new last interval in slot loc. */
    method AppendNode(loc: int, seqno1: int, seqno2: int, ghost n: Node)
      requires Valid() && tail in nodes && 0 <= tail < size && 0 <= loc < size && loc !in nodes
      requires seqno1 == Wrap(n.lo) && seqno2 == Wrap(n.hi) && Roomy(nodes, n, size)
      requires nodes[tail].hi < n.lo && forall m | m in nodes :: Aligned(loc, m, n.lo - nodes[m].lo, size)
      modifies this`nodes, this`tail, data1, data2, next, prior
      ensures Arrays() && Placed(nodes, size) && Disjoint(nodes)
      ensures Stored(data1[..], data2[..], nodes) && Linked(next[..], nodes, head)
      ensures Mutual(next[..], prior[..], nodes.Keys, head, tail)
      ensures Contents() == old(Contents()) + Range(n.lo, n.hi)
      ensures |Contents()| == old(|Contents()|) + (n.hi - n.lo + 1)
    {
      hide Placed, Disjoint, Stored, Linked, DisjointUpTo, Follows, Cover, Range, Wrap, Aligned, Mutual;
      MutualFacts(next[..], prior[..], nodes.Keys, head, tail, tail);
      PutAfterStep(data1[..], data2[..], next[..], nodes, head, tail, loc, n, size);
      MutualInsert(next[..], prior[..], nodes.Keys, head, tail, tail, loc);
      ghost var after := nodes[loc := n];
      assert after.Keys == nodes.Keys + {loc};
      LastIsSettled(next[..], nodes, head, tail, loc, n);
      WriteNode(loc, seqno1, seqno2, n);
      ghost var nx := next[..];
      next[tail] := loc;
      prior[loc] := tail;
      next[loc] := -1;
      assert next[..] == nx[loc := nx[tail]][tail := loc];
      tail := loc;
      nodes := after;
    }

    /** Fills an empty slot. */
    method WriteNode(loc: int, seqno1: int, seqno2: int, ghost n: Node)
      requires Arrays() && 0 <= loc < size && data2[loc] == -1
      requires n.lo <= n.hi < n.lo + size && seqno1 == Wrap(n.lo) && seqno2 == Wrap(n.hi)
      modifies data1, data2
      ensures data1[..] == old(data1[..])[loc := Wrap(n.lo)]
      ensures data2[..] == old(data2[..])[loc := SecondOf(n)]
    {
      WrapCompare(n.lo, n.hi);
      data1[loc] := seqno1;
      if seqno2 != seqno1 {
        data2[loc] := seqno2;
      }
    }

    /** Takes seqno, which stands for the counter a, out of the list if it is there. */
    method Remove(seqno: int, ghost a: int) returns (removed: bool)
      requires Valid() && seqno == Wrap(a)
      requires forall x | x in Contents() :: -SEQ_TH < x - a < SEQ_TH
      modifies this, data1, data2, next, prior
      ensures Valid() && removed == (a in old(Contents())) && Contents() == old(Contents()) - {a}
    {
      hide Placed, Disjoint, Stored, Linked, DisjointUpTo, Follows, Cover, Range, Wrap, Aligned, Mutual;
      EmptyCover(nodes, size);
      assert Contents() == Cover(nodes);
      if length == 0 {
        return false;
      }
      NearCover(nodes, a, size);
      LeastIsHead(next[..], nodes, head, size);
      ReadSlot(data1[..], data2[..], next[..], nodes, head, head, size);
      WrapCompare(nodes[head].lo, a);
      var offset := SeqOff(data1[head], seqno);
      if offset < 0 {
        return false;
      }
      var loc := (head + offset) % size;
      if seqno == data1[loc] {
        StartsHere(data1[..], data2[..], next[..], nodes, head, loc, a, size);
        RemoveStart(loc, a);
        return true;
      }
      ghost var before := Contents();
      removed := RemoveInside(loc, seqno, a);
    }

    /** Takes the first number off the interval in slot loc. */
    method RemoveStart(loc: int, ghost a: int)
      requires Valid() && loc in nodes && 0 <= loc < size && nodes[loc].lo == a
      modifies this, data1, data2, next, prior
      ensures Valid() && Contents() == old(Contents()) - {a} && a in old(Contents())
    {
      hide Placed, Disjoint, Stored, Linked, DisjointUpTo, Follows, Cover, Range, Wrap, Aligned, Mutual;
      SingleRange(a);
      EndsInCover(nodes, size);
      ReadSlot(data1[..], data2[..], next[..], nodes, head, loc, size);
      if data2[loc] == -1 {
        RemoveSingle(loc, a);
      } else {
        ghost var i := (loc + 1) % size;
        MoveStep(data1[..], data2[..], next[..], prior[..], nodes, head, tail, loc, i, size);
        ghost var after := (nodes - {loc})[i := Node(a + 1, nodes[loc].hi)];
        MutualFacts(next[..], prior[..], nodes.Keys, head, tail, loc);
        MoveNode(loc, nodes[loc]);
        length := length - 1;
        nodes := after;
      }
    }

    /** Takes out an interval of one sequence number. */
    method RemoveSingle(loc: int, ghost a: int)
      requires Valid() && loc in nodes && 0 <= loc < size && nodes[loc].lo == a && data2[loc] == -1
      modifies this, data1, next, prior
      ensures Valid() && Contents() == old(Contents()) - {a}
    {
      hide Placed, Disjoint, Stored, Linked, DisjointUpTo, Follows, Cover, Range, Wrap, Aligned, Mutual;
      SingleRange(a);
      ReadSlot(data1[..], data2[..], next[..], nodes, head, loc, size);
      MutualFacts(next[..], prior[..], nodes.Keys, head, tail, loc);
      UnlinkStep(data1[..], data2[..], next[..], prior[..], nodes, head, tail, loc, size);
      assert data2[..][loc := -1] == data2[..];
      Unlink(loc);
      MutualEmpty(next[..], prior[..], head, tail);
      data1[loc] := -1;
      length := length - 1;
      nodes := nodes - {loc};
    }

    /** Links the neighbours of slot loc to each other. */
    method Unlink(loc: int)
      requires Arrays() && 0 <= loc < size && 0 <= head < size
      requires (prior[loc] == -1 <==> loc == head) && (next[loc] == -1 <==> loc == tail)
      requires next[loc] != -1 ==> 0 <= next[loc] < size
      requires prior[loc] != -1 ==> 0 <= prior[loc] < size
      modifies this`head, this`tail, next, prior
      ensures next[..] == BackLink(old(next[..]), old(prior[loc]), old(next[loc]))
      ensures prior[..] == BackLink(old(prior[..]), old(next[loc]), old(prior[loc]))
      ensures head == if loc == old(head) then old(next[loc]) else old(head)
      ensures old(next[loc]) != -1 || old(prior[loc]) != -1 ==>
        tail == if loc == old(tail) then old(prior[loc]) else old(tail)
    {
      if head == loc {
        head := next[head];
        if head != -1 {
          prior[head] := -1;
        }
      } else {
        ghost var p, n := prior[loc], next[loc];
        next[prior[loc]] := next[loc];
        if next[loc] != -1 {
          prior[next[loc]] := prior[loc];
        } else {
          tail := prior[loc];
        }
      }
    }

    /** Moves the interval n from slot loc to the next slot, without its first number. */
    method MoveNode(loc: int, ghost n: Node)
      requires Arrays() && 0 <= loc < size && data2[(loc + 1) % size] == -1
      requires n.lo < n.hi < n.lo + size && data1[loc] == Wrap(n.lo) && data2[loc] == Wrap(n.hi)
      requires (prior[loc] == -1 <==> loc == head) && (next[loc] == -1 <==> loc == tail)
      requires next[loc] != -1 ==> 0 <= next[loc] < size && next[loc] != loc
      requires prior[loc] != -1 ==> 0 <= prior[loc] < size && prior[loc] != loc
      requires next[loc] != (loc + 1) % size && prior[loc] != (loc + 1) % size
      modifies this`head, this`tail, data1, data2, next, prior
      ensures var i := (loc + 1) % size;
        && data1[..] == old(data1[..])[i := Wrap(n.lo + 1)][loc := -1]
        && data2[..] == old(data2[..])[i := SecondOf(Node(n.lo + 1, n.hi))][loc := -1]
        && next[..] == BackLink(old(next[..])[i := old(next[loc])], old(prior[loc]), i)
        && prior[..] == BackLink(old(prior[..])[i := old(prior[loc])], old(next[loc]), i)
        && head == (if loc == old(head) then i else old(head))
        && tail == (if loc == old(tail) then i else old(tail))
    {
      MoveData(loc, n);
      var i := (loc + 1) % size;
      next[i] := next[loc];
      prior[i] := prior[loc];
      if head == loc {
        head := i;
      } else {
        next[prior[i]] := i;
      }
      if tail == loc {
        tail := i;
      } else {
        prior[next[i]] := i;
      }
    }

    method MoveData(loc: int, ghost n: Node)
      requires Arrays() && 0 <= loc < size && data2[(loc + 1) % size] == -1
      requires n.lo < n.hi < n.lo + size && data1[loc] == Wrap(n.lo) && data2[loc] == Wrap(n.hi)
      modifies data1, data2
      ensures var i := (loc + 1) % size;
        && data1[..] == old(data1[..])[i := Wrap(n.lo + 1)][loc := -1]
        && data2[..] == old(data2[..])[i := SecondOf(Node(n.lo + 1, n.hi))][loc := -1]
    {
      WrapStep(n.lo);
      WrapCompare(n.hi, n.lo + 1);
      var i := (loc + 1) % size;
      data1[i] := IncSeq(data1[loc]);
      if SeqCmp(data2[loc], IncSeq(data1[loc])) > 0 {
        data2[i] := data2[loc];
      }
      data1[loc] := -1;
      data2[loc] := -1;
    }

    /** Takes a number that starts no interval out of the one that holds it, if any. */
    method RemoveInside(slot: int, seqno: int, ghost a: int) returns (removed: bool)
      requires Valid() && seqno == Wrap(a) && head in nodes && 0 <= head < size && nodes[head].lo <= a
      requires 0 <= slot < size && slot == (head + (a - nodes[head].lo)) % size && data1[slot] != seqno
      requires forall m | m in nodes :: -SEQ_TH < nodes[m].lo - a < SEQ_TH && -SEQ_TH < nodes[m].hi - a < SEQ_TH
      modifies this, data1, data2, next, prior
      ensures Valid() && removed == (a in old(Contents())) && Contents() == old(Contents()) - {a}
    {
      hide Placed, Disjoint, Stored, Linked, DisjointUpTo, Follows, Cover, Range, Wrap, Aligned, Mutual;
      AddTurn(head + (a - nodes[head].lo), size);
      NotAStart(data1[..], data2[..], next[..], nodes, head, a, slot, size);
      var i := ScanBack(slot, a);
      ReadSlot(data1[..], data2[..], next[..], nodes, head, i, size);
      WrapCompare(a, nodes[i].hi);
      WrapCompare(nodes[i].lo + 1, a);
      WrapStep(nodes[i].lo);
      if data2[i] == -1 || SeqCmp(seqno, data2[i]) > 0 {
        return false;
      }
      InCover(nodes, i, a);
      if seqno == data2[i] {
        ShrinkStep(data1[..], data2[..], next[..], nodes, head, i, size);
        ghost var n := Node(nodes[i].lo, a - 1);
        WriteShrunk(i, seqno, n);
        length := length - 1;
        nodes := nodes[i := n];
      } else {
        NextSlotFree(nodes, i, head, a, slot, (slot + 1) % size, size);
        SplitOut(i, (slot + 1) % size, seqno, a);
      }
      return true;
    }

    /** Ends the interval in slot i just before seqno. */
    method WriteShrunk(i: int, seqno: int, ghost n: Node)
      requires Arrays() && 0 <= i < size && data1[i] == Wrap(n.lo) && n.lo <= n.hi < n.lo + size
      requires seqno == Wrap(n.hi + 1)
      modifies data2
      ensures data2[..] == old(data2[..])[i := SecondOf(n)]
    {
      WrapStep(n.lo);
      WrapStep(n.hi + 1);
      WrapCompare(n.lo, n.hi);
      WrapCompare(n.lo + 1, n.hi + 1);
      if seqno == IncSeq(data1[i]) {
        data2[i] := -1;
      } else {
        data2[i] := DecSeq(seqno);
      }
    }

    /** Goes back slot by slot to the next occupied one: the only interval that could hold the counter a. */
    method ScanBack(slot: int, ghost a: int) returns (i: int)
      requires Valid() && head in nodes && 0 <= head < size && nodes[head].lo <= a
      requires 0 <= slot < size && slot == (head + (a - nodes[head].lo)) % size
      requires forall m | m in nodes :: nodes[m].lo != a
      ensures i in nodes && 0 <= i < size && nodes[i].lo < a
      ensures a in Contents() ==> a <= nodes[i].hi
    {
      hide Placed, Disjoint, Stored, Linked, DisjointUpTo, Follows, Cover, Range, Wrap, Aligned, Mutual, NoneBetween,
        BackSlot;
      ReadSlot(data1[..], data2[..], next[..], nodes, head, head, size);
      ScanStart(nodes, head, a, slot, size);
      HeadInTable(next[..], nodes, head);
      i := BackSlot(slot, size);
      while data1[i] == -1
        invariant 0 <= i < size
        invariant NoneBetween(nodes, nodes[head].lo + Distance(head, i, size), a, nodes[head].lo + size)
        decreases Distance(head, i, size)
      {
        SkipEmpty(data1[..], data2[..], nodes, head, i, a, size);
        i := BackSlot(i, size);
      }
      if i !in nodes {
        ReadEmpty(data1[..], data2[..], nodes, i);
      }
      ScanEnd(next[..], nodes, head, i, a, size);
    }

    /** Cuts seqno out of the middle of the interval in slot i; what follows it goes to slot loc. */
    method SplitOut(i: int, loc: int, seqno: int, ghost a: int)
      requires Valid() && i in nodes && 0 <= i < size && nodes[i].lo < a < nodes[i].hi && seqno == Wrap(a)
      requires 0 <= loc < size && loc !in nodes
      requires forall m | m in nodes :: Aligned(loc, m, a + 1 - nodes[m].lo, size)
      modifies this, data1, data2, next, prior
      ensures Valid() && Contents() == old(Contents()) - {a}
    {
      hide Placed, Disjoint, Stored, Linked, DisjointUpTo, Follows, Cover, Range, Wrap, Aligned, Mutual;
      SplitOutStep(data1[..], data2[..], next[..], prior[..], nodes, head, tail, i, loc, a, size);
      MutualFacts(next[..], prior[..], nodes.Keys, head, tail, i);
      ReadSlot(data1[..], data2[..], next[..], nodes, head, i, size);
      ghost var after := nodes[i := Node(nodes[i].lo, a - 1)][loc := Node(a + 1, nodes[i].hi)];
      assert after.Keys == nodes.Keys + {loc};
      WriteSplit(i, loc, seqno, nodes[i], a);
      length := length - 1;
      nodes := after;
    }

    method WriteSplit(i: int, loc: int, seqno: int, ghost n: Node, ghost a: int)
      requires Arrays() && 0 <= i < size && 0 <= loc < size && i != loc
      requires n.lo < a < n.hi < n.lo + size && seqno == Wrap(a)
      requires data1[i] == Wrap(n.lo) && data2[i] == Wrap(n.hi) && data2[loc] == -1
      requires (next[i] == -1 <==> i == tail) && (next[i] != -1 ==> 0 <= next[i] < size)
      modifies this`tail, data1, data2, next, prior
      ensures data1[..] == old(data1[..])[loc := Wrap(a + 1)]
      ensures data2[..] == old(data2[..])[loc := SecondOf(Node(a + 1, n.hi))][i := SecondOf(Node(n.lo, a - 1))]
      ensures next[..] == old(next[..])[loc := old(next[i])][i := loc]
      ensures prior[..] == BackLink(old(prior[..])[loc := i], old(next[i]), loc)
      ensures tail == if i == old(tail) then loc else old(tail)
    {
      WrapStep(a);
      WrapCompare(n.hi, a + 1);
      data1[loc] := IncSeq(seqno);
      if SeqCmp(data2[i], data1[loc]) > 0 {
        data2[loc] := data2[i];
      }
      WriteShrunk(i, seqno, Node(n.lo, a - 1));
      next[loc] := next[i];
      next[i] := loc;
      prior[loc] := i;
      if tail == i {
        tail := loc;
      } else {
        prior[next[loc]] := loc;
      }
    }

    /** Whether any number from seqno1 to seqno2, which stand for a and b, is in the list. */
    method Find(seqno1: int, seqno2: int, ghost a: int, ghost b: int) returns (found: bool)
      requires Valid() && a <= b && seqno1 == Wrap(a) && seqno2 == Wrap(b)
      requires forall x | x in Contents() :: -SEQ_TH < x - a < SEQ_TH && -SEQ_TH < x - b < SEQ_TH
      ensures found == exists x :: x in Contents() && a <= x <= b
    {
      hide Placed, Disjoint, Stored, Linked, DisjointUpTo, Follows, Cover, Range, Wrap, Aligned, Mutual;
      EmptyCover(nodes, size);
      assert Contents() == Cover(nodes);
      if length == 0 {
        return false;
      }
      NearCover(nodes, a, size);
      NearCover(nodes, b, size);
      LeastIsHead(next[..], nodes, head, size);
      var p := head;
      SearchFrom(next[..], nodes, head, p);
      while p != -1
        invariant p == -1 || p in nodes
        invariant Searched(nodes, p, a, b)
        decreases Remaining(nodes, p)
      {
        ReadSlot(data1[..], data2[..], next[..], nodes, head, p, size);
        WrapCompare(nodes[p].lo, a);
        WrapCompare(nodes[p].lo, b);
        WrapCompare(nodes[p].hi, a);
        if SeqCmp(data1[p], seqno1) == 0
           || (SeqCmp(data1[p], seqno1) > 0 && SeqCmp(data1[p], seqno2) <= 0)
           || (SeqCmp(data1[p], seqno1) < 0 && data2[p] != -1 && SeqCmp(data2[p], seqno1) >= 0) {
          ghost var x := if nodes[p].lo >= a then nodes[p].lo else a;
          InCover(nodes, p, x);
          assert x in Contents();
          return true;
        }
        SearchStep(nodes, p, next[p], a, b, size);
        p := next[p];
      }
      SearchEnd(nodes, a, b);
      found := false;
    }

    /** The smallest number in the list, or -1 when there is none. */
    method GetFirstLostSeq() returns (seqno: int, ghost least: int)
      requires Valid()
      ensures Contents() == {} ==> seqno == -1
      ensures Contents() != {} ==>
        least in Contents() && (forall x | x in Contents() :: least <= x) && seqno == Wrap(least)
    {
      EmptyCover(nodes, size);
      if length == 0 {
        return -1, 0;
      }
      LeastIsHead(next[..], nodes, head, size);
      ReadSlot(data1[..], data2[..], next[..], nodes, head, head, size);
      least := nodes[head].lo;
      seqno := data1[head];
    }

    /** Writes a loss report of fewer than limit words: the intervals below bound, which are all of them
        unless the limit cuts the report short. */
    method GetLossArray(words: array<int>, limit: int) returns (len: int, ghost runs: seq<Node>, ghost bound: int)
      requires Valid() && limit <= words.Length && words != data1 && words != data2 && words != next && words != prior
      modifies words
      ensures 0 <= len <= words.Length && words[..len] == EncodeRuns(runs)
      ensures forall i | 0 <= i < |runs| :: runs[i].lo <= runs[i].hi
      ensures Covered(runs) == set x | x in Contents() && x < bound
      ensures len < limit - 1 ==> Covered(runs) == Contents()
      ensures limit > 1 && Contents() != {} ==> runs != []
    {
      hide Placed, Disjoint, Stored, Linked, DisjointUpTo, Follows, Cover, Range, Wrap, Aligned, Mutual;
      EmptyCover(nodes, size);
      len, runs := 0, [];
      var i := head;
      ReportFrom(next[..], nodes, head, size);
      while len < limit - 1 && i != -1
        invariant i == -1 || i in nodes
        invariant 0 <= len && (limit > 0 ==> len <= limit) && (limit <= 0 ==> len == 0)
        invariant words[..len] == EncodeRuns(runs)
        invariant forall k | 0 <= k < |runs| :: runs[k].lo <= runs[k].hi
        invariant Covered(runs) == Reported(nodes, i)
        invariant runs == [] ==> i == head
        decreases Remaining(nodes, i)
      {
        ReadSlot(data1[..], data2[..], next[..], nodes, head, i, size);
        EncodeAppend(runs, nodes[i]);
        ReportStep(nodes, i, next[i], runs, size);
        ghost var before := words[..len];
        words[len] := data1[i];
        if data2[i] != -1 {
          words[len] := words[len] + FLAG;
          len := len + 1;
          words[len] := data2[i];
        }
        len := len + 1;
        assert words[..len] == before + EncodeRun(nodes[i]);
        runs := runs + [nodes[i]];
        i := next[i];
      }
      bound := ReportEnd(nodes, i, size);
    }
  }
}
