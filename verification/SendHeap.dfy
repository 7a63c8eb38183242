/** The send scheduler: a binary heap of nodes by time stamp, in which every node knows where it is. */
module SendHeaps {

  /** What the heap order looks at. */
  datatype Entry<N> = Entry(node: N, ts: int)

  // ---------- the heap as a sequence ----------

  function Parent(i: int): int {
    (i - 1) / 2
  }

  ghost predicate Ordered<N>(h: seq<Entry<N>>) {
    forall i | 1 <= i < |h| :: h[Parent(i)].ts <= h[i].ts
  }

  function Swap<N>(h: seq<Entry<N>>, i: nat, j: nat): (r: seq<Entry<N>>)
    requires i < |h| && j < |h|
    ensures |r| == |h| && multiset(r) == multiset(h)
  {
    h[i := h[j]][j := h[i]]
  }

  function SiftUp<N>(h: seq<Entry<N>>, q: nat): (r: seq<Entry<N>>)
    requires q < |h|
    ensures |r| == |h| && multiset(r) == multiset(h)
    decreases q
  {
    if q == 0 then h
    else
      var p := Parent(q);
      if h[p].ts > h[q].ts then SiftUp(Swap(h, p, q), p) else h
  }

  /** The smaller child of q, the left one when they are equal. */
  function Child<N>(h: seq<Entry<N>>, q: nat): (p: nat)
    requires 2 * q + 1 < |h|
    ensures p < |h| && Parent(p) == q && q < p
    ensures forall i | 1 <= i < |h| && Parent(i) == q :: h[p].ts <= h[i].ts
  {
    if 2 * q + 2 < |h| && h[2 * q + 1].ts > h[2 * q + 2].ts then 2 * q + 2 else 2 * q + 1
  }

  function SiftDown<N>(h: seq<Entry<N>>, q: nat): (r: seq<Entry<N>>)
    requires q < |h|
    ensures |r| == |h| && multiset(r) == multiset(h)
    decreases |h| - q
  {
    if 2 * q + 1 >= |h| then h
    else
      var p := Child(h, q);
      if h[q].ts > h[p].ts then SiftDown(Swap(h, q, p), p) else h
  }

  function Added<N>(h: seq<Entry<N>>, e: Entry<N>): (r: seq<Entry<N>>)
    ensures multiset(r) == multiset(h) + multiset{e}
  {
    SiftUp(h + [e], |h|)
  }

  /** The entry at k is replaced by the last one, which then sinks; it never rises. */
  function Removed<N>(h: seq<Entry<N>>, k: nat): (r: seq<Entry<N>>)
    requires k < |h|
    ensures multiset(h) == multiset(r) + multiset{h[k]}
  {
    var n := |h| - 1;
    assert h == h[..n] + [h[n]];
    if k == n then h[..n]
    else
      assert h[..n] == h[..k] + [h[k]] + h[k + 1..n];
      assert h[..n][k := h[n]] == h[..k] + [h[n]] + h[k + 1..n];
      SiftDown(h[..n][k := h[n]], k)
  }

  // ---------- order ----------

  /** Ordered but for the edge above q, whose children also fit under its parent. */
  ghost predicate OrderedUpTo<N>(h: seq<Entry<N>>, q: nat)
    requires q < |h|
  {
    && (forall i | 1 <= i < |h| && i != q :: h[Parent(i)].ts <= h[i].ts)
    && (q > 0 ==> forall i | 1 <= i < |h| && Parent(i) == q :: h[Parent(q)].ts <= h[i].ts)
  }

  lemma {:induction false} SiftUpOrders<N>(h: seq<Entry<N>>, q: nat)
    requires q < |h| && OrderedUpTo(h, q)
    ensures Ordered(SiftUp(h, q))
    decreases q
  {
    if q > 0 && h[Parent(q)].ts > h[q].ts {
      SiftUpOrders(Swap(h, Parent(q), q), Parent(q));
    }
  }

  /** Adding keeps the heap ordered. */
  lemma AddedOrdered<N>(h: seq<Entry<N>>, e: Entry<N>)
    requires Ordered(h)
    ensures Ordered(Added(h, e))
  {
    SiftUpOrders(h + [e], |h|);
  }

  /** Ordered but for the edges below q and, when k is not 0, the one above k. */
  ghost predicate OrderedBut<N>(h: seq<Entry<N>>, k: nat, q: nat)
    requires q < |h|
  {
    && (forall i | 1 <= i < |h| && i != k && Parent(i) != q :: h[Parent(i)].ts <= h[i].ts)
    && (q > 0 ==> forall i | 1 <= i < |h| && Parent(i) == q :: h[Parent(q)].ts <= h[i].ts)
  }

  /** Sinking from q orders everything, the edge above k excepted. */
  lemma {:induction false} SiftDownOrders<N>(h: seq<Entry<N>>, k: nat, q: nat)
    requires k <= q < |h| && OrderedBut(h, k, q)
    ensures var r := SiftDown(h, q);
      forall i | 1 <= i < |h| && i != k :: r[Parent(i)].ts <= r[i].ts
    decreases |h| - q
  {
    if 2 * q + 1 < |h| {
      var p := Child(h, q);
      if h[q].ts > h[p].ts {
        SwapDown(h, k, q, p);
        SiftDownOrders(Swap(h, q, p), k, p);
      }
    }
  }

  lemma SwapDown<N>(h: seq<Entry<N>>, k: nat, q: nat, p: nat)
    requires k <= q < p < |h| && OrderedBut(h, k, q) && Parent(p) == q && h[p].ts < h[q].ts
    requires forall i | 1 <= i < |h| && Parent(i) == q :: h[p].ts <= h[i].ts
    ensures OrderedBut(Swap(h, q, p), k, p)
  {
    var s := Swap(h, q, p);
    assert forall i | 0 <= i < |h| && i != q && i != p :: s[i] == h[i];
  }

  /** What is at q afterwards is what was there or, if that was later, its smaller child; nothing above q moves. */
  lemma {:induction false} SiftDownAbove<N>(h: seq<Entry<N>>, q: nat)
    requires q < |h|
    ensures var r := SiftDown(h, q);
      && (forall j | 0 <= j < q :: r[j] == h[j])
      && (r[q] == h[q] || exists i :: 1 <= i < |h| && Parent(i) == q && r[q] == h[i] && h[i].ts < h[q].ts)
    decreases |h| - q
  {
    if 2 * q + 1 < |h| {
      var p := Child(h, q);
      if h[q].ts > h[p].ts {
        SiftDownAbove(Swap(h, q, p), p);
      }
    }
  }

  /** Removing the entry at k keeps the heap ordered exactly when the last entry, which takes its place, is not
      smaller than the parent of k. */
  lemma RemovedOrdered<N>(h: seq<Entry<N>>, k: nat)
    requires Ordered(h) && k < |h|
    ensures Ordered(Removed(h, k)) <==> k == 0 || k == |h| - 1 || h[Parent(k)].ts <= h[|h| - 1].ts
  {
    var n := |h| - 1;
    if k < n {
      var g := h[..n][k := h[n]];
      ReplacedOrderedBut(h, k, g);
      SiftDownOrders(g, k, k);
      SiftDownAbove(g, k);
      if k > 0 {
        assert g[Parent(k)] == h[Parent(k)];
      }
      hide SiftDown;
    }
  }

  lemma ReplacedOrderedBut<N>(h: seq<Entry<N>>, k: nat, g: seq<Entry<N>>)
    requires Ordered(h) && k < |h| - 1 && g == h[..|h| - 1][k := h[|h| - 1]]
    ensures OrderedBut(g, k, k)
    ensures k > 0 ==> forall i | 1 <= i < |g| && Parent(i) == k :: g[Parent(k)].ts <= g[i].ts
  {
    forall i | 1 <= i < |g| && Parent(i) == k
      ensures k > 0 ==> g[Parent(k)].ts <= g[i].ts
    {
      assert h[Parent(i)].ts <= h[i].ts;
      assert k > 0 ==> h[Parent(k)].ts <= h[k].ts;
    }
  }

  /** In an ordered heap nothing is earlier than the root. */
  lemma {:induction false} RootIsEarliest<N>(h: seq<Entry<N>>, i: nat)
    requires Ordered(h) && i < |h|
    ensures h[0].ts <= h[i].ts
  {
    if i > 0 {
      RootIsEarliest(h, Parent(i));
    }
  }

  lemma RemovedIs<N>(h: seq<Entry<N>>, k: nat)
    requires k < |h|
    ensures var n := |h| - 1; Removed(h, k) == if k == n then h[..k] else SiftDown(h[..n][k := h[n]], k)
  {
  }

  lemma FirstIsEarliest<N>(h: seq<Entry<N>>)
    ensures Ordered(h) && h != [] ==> Ordered(Removed(h, 0)) && forall i | 0 <= i < |h| :: h[0].ts <= h[i].ts
  {
    if Ordered(h) && h != [] {
      forall i | 0 <= i < |h|
        ensures h[0].ts <= h[i].ts
      {
        RootIsEarliest(h, i);
      }
      RemovedOrdered(h, 0);
    }
  }

  /** A heap, ordered, that removing an inner entry leaves out of order. */
  lemma RemovalCanBreakOrder()
    ensures exists h: seq<Entry<int>>, k: nat :: k < |h| && Ordered(h) && !Ordered(Removed(h, k))
  {
    var h := [Entry(0, 1), Entry(1, 10), Entry(2, 2), Entry(3, 11), Entry(4, 12), Entry(5, 3)];
    assert h[0].ts == 1 && h[1].ts == 10 && h[2].ts == 2 && h[3].ts == 11 && h[4].ts == 12 && h[5].ts == 3;
    assert Parent(1) == 0 && Parent(2) == 0 && Parent(3) == 1 && Parent(4) == 1 && Parent(5) == 2;
    assert Ordered(h) && !(h[Parent(3)].ts <= h[5].ts);
    RemovedOrdered(h, 3);
    hide Removed;
  }

  // ---------- the scheduler ----------

  class SNode {
    var timeStamp: int
    var heapLoc: int

    constructor ()
      ensures heapLoc == -1
    {
      timeStamp := 0;
      heapLoc := -1;
    }
  }

  class SndUList {

    var heap: array<SNode?>
    var lastEntry: int
    ghost var nodes: set<SNode>

    /** The heap array up to the last entry holds the nodes, except that at q it may hold out, not placed yet. */
    ghost predicate PlacedBut(q: int, out: SNode?)
      reads this, heap, nodes
    {
      && 0 < heap.Length && -1 <= lastEntry < heap.Length
      && (forall i | 0 <= i <= lastEntry && i != q :: heap[i] != null && heap[i] in nodes && heap[i].heapLoc == i)
      && (forall n | n in nodes && n != out :: 0 <= n.heapLoc <= lastEntry && heap[n.heapLoc] == n)
      && (0 <= q <= lastEntry ==> heap[q] != null && heap[q] == out && out in nodes)
    }

    ghost predicate Valid()
      reads this, heap, nodes
    {
      PlacedBut(-1, null)
    }

    /** The entries in heap order. */
    ghost function View(): (h: seq<Entry<SNode?>>)
      requires 0 <= lastEntry + 1 <= heap.Length
      requires forall i | 0 <= i <= lastEntry :: heap[i] != null && heap[i] in nodes
      reads this, heap, nodes
      ensures |h| == lastEntry + 1
      ensures forall i | 0 <= i <= lastEntry :: h[i] == Entry(heap[i], heap[i].timeStamp)
    {
      seq(lastEntry + 1, i requires 0 <= i <= lastEntry < heap.Length && heap[i] != null && heap[i] in nodes
                           reads this, heap, nodes => Entry(heap[i], heap[i].timeStamp))
    }

    constructor ()
      ensures Valid() && View() == [] && nodes == {} && fresh(heap)
    {
      heap := new SNode?[4096](_ => null);
      lastEntry := -1;
      nodes := {};
    }

    /** Grows the array when it is full. */
    method Insert(ts: int, n: SNode)
      requires Valid() && (n.heapLoc >= 0 <==> n in nodes)
      modifies this, heap, nodes, n
      ensures Valid() && (heap == old(heap) || fresh(heap))
      ensures if old(n in nodes) then View() == old(View()) && nodes == old(nodes)
              else View() == Added(old(View()), Entry<SNode?>.Entry(n, ts)) && nodes == old(nodes) + {n}
    {
      if lastEntry == heap.Length - 1 {
        var temp := new SNode?[heap.Length * 2](_ => null);
        forall i | 0 <= i < heap.Length {
          temp[i] := heap[i];
        }
        heap := temp;
        assert View() == old(View());
      }
      InsertNode(ts, n);
    }

    method InsertNode(ts: int, n: SNode)
      requires Valid() && (n.heapLoc >= 0 <==> n in nodes) && (n in nodes || lastEntry + 1 < heap.Length)
      modifies this`lastEntry, this`nodes, heap, nodes`heapLoc, n
      ensures Valid()
      ensures if old(n in nodes) then View() == old(View()) && nodes == old(nodes)
              else View() == Added(old(View()), Entry<SNode?>.Entry(n, ts)) && nodes == old(nodes) + {n}
    {
      if n.heapLoc >= 0 {
        return;
      }
      hide SiftUp;
      Append(ts, n);
      var q := Rise(n);
      Settle(q, n);
    }

    method Settle(q: nat, n: SNode)
      requires q <= lastEntry && PlacedBut(q, n) && n.heapLoc < 0
      modifies n`heapLoc
      ensures Valid() && View() == old(View()) && n.heapLoc == q
    {
      n.heapLoc := q;
    }

    method Append(ts: int, n: SNode)
      requires Valid() && n.heapLoc < 0 && n !in nodes && lastEntry + 1 < heap.Length
      modifies this`lastEntry, this`nodes, heap, n`timeStamp
      ensures PlacedBut(lastEntry, n) && lastEntry == old(lastEntry) + 1 && nodes == old(nodes) + {n}
      ensures View() == old(View()) + [Entry<SNode?>.Entry(n, ts)]
    {
      lastEntry := lastEntry + 1;
      heap[lastEntry] := n;
      n.timeStamp := ts;
      nodes := nodes + {n};
    }

    /** The node at the end of the heap rises to its place q. */
    method Rise(n: SNode) returns (q: nat)
      requires 0 <= lastEntry && PlacedBut(lastEntry, n) && n.heapLoc < 0
      modifies heap, nodes`heapLoc
      ensures q <= lastEntry && PlacedBut(q, n) && n.heapLoc == old(n.heapLoc)
      ensures View() == SiftUp(old(View()), lastEntry)
    {
      hide Swap;
      q := lastEntry;
      var p := q;
      while p != 0
        invariant 0 <= p == q <= lastEntry
        invariant PlacedBut(q, n) && n.heapLoc == old(n.heapLoc)
        invariant SiftUp(View(), q) == SiftUp(old(View()), lastEntry)
        decreases q
      {
        p := (q - 1) / 2;
        if heap[p].timeStamp > heap[q].timeStamp {
          SwapUp(p, q, heap[p]);
          q := p;
        } else {
          break;
        }
      }
    }

    /** Exchanges the node being placed at q with the one at p, which learns its new place. */
    method SwapUp(p: nat, q: nat, t: SNode)
      requires p < q <= lastEntry < heap.Length && heap[p] == t && PlacedBut(q, heap[q]) && heap[q].heapLoc < 0
      modifies heap, t`heapLoc
      ensures PlacedBut(p, old(heap[q])) && View() == Swap(old(View()), p, q)
      ensures old(heap[q]).heapLoc == old(heap[q].heapLoc)
    {
      heap[p] := heap[q];
      heap[q] := t;
      t.heapLoc := q;
    }

    /** Takes a node out of the heap; one that is not in it is left alone. */
    method Remove(n: SNode)
      requires Valid() && (n.heapLoc >= 0 <==> n in nodes)
      modifies this`lastEntry, this`nodes, heap, nodes`heapLoc, n`heapLoc
      ensures Valid() && n.heapLoc < 0 && nodes == old(nodes) - {n}
      ensures View() == if old(n in nodes) then Removed(old(View()), old(n.heapLoc)) else old(View())
    {
      if n.heapLoc >= 0 {
        hide PlacedBut, Removed;
        TakeOut(n);
      }
    }

    method TakeOut(n: SNode)
      requires Valid() && n in nodes
      modifies this`lastEntry, this`nodes, heap, nodes`heapLoc, n`heapLoc
      ensures Valid() && n.heapLoc < 0 && nodes == old(nodes) - {n}
      ensures 0 <= old(n.heapLoc) < |old(View())| && View() == Removed(old(View()), old(n.heapLoc))
    {
      hide Removed;
      Refill(n);
      hide PlacedBut;
      Forget(n);
    }

    /** Fills the hole that n leaves. */
    method Refill(n: SNode)
      requires Valid() && n in nodes
      modifies this`lastEntry, this`nodes, heap, nodes`heapLoc
      ensures Valid() && nodes == old(nodes) - {n} && n.heapLoc == old(n.heapLoc)
      ensures 0 <= n.heapLoc < |old(View())| && View() == Removed(old(View()), n.heapLoc)
    {
      RemovedIs(View(), n.heapLoc);
      Replace(n);
      hide SiftDown, Removed;
      if n.heapLoc <= lastEntry {
        Sink(n.heapLoc, n);
      }
    }

    method Forget(n: SNode)
      requires Valid() && n !in nodes
      modifies n`heapLoc
      ensures Valid() && View() == old(View()) && n.heapLoc == -1
    {
      n.heapLoc := -1;
    }

    /** The last node takes the place of n. */
    method Replace(n: SNode)
      requires Valid() && n in nodes
      modifies this`lastEntry, this`nodes, heap, nodes`heapLoc
      ensures Valid() && nodes == old(nodes) - {n} && lastEntry == old(lastEntry) - 1
      ensures n.heapLoc == old(n.heapLoc) && n !in nodes
      ensures var h, k := old(View()), n.heapLoc;
        View() == if k == |h| - 1 then h[..k] else h[..|h| - 1][k := h[|h| - 1]]
    {
      heap[n.heapLoc] := heap[lastEntry];
      lastEntry := lastEntry - 1;
      heap[n.heapLoc].heapLoc := n.heapLoc;
      nodes := nodes - {n};
    }

    /** The node at place k sinks. */
    method Sink(k: nat, ghost n: SNode)
      requires Valid() && k <= lastEntry && n !in nodes
      modifies heap, nodes`heapLoc
      ensures Valid() && View() == SiftDown(old(View()), k) && n.heapLoc == old(n.heapLoc)
    {
      hide Swap;
      var q := k;
      var p := q * 2 + 1;
      while p <= lastEntry
        invariant 0 <= q <= lastEntry && p == 2 * q + 1 && Valid()
        invariant SiftDown(View(), q) == SiftDown(old(View()), k)
        decreases lastEntry - q
      {
        if p + 1 <= lastEntry && heap[p].timeStamp > heap[p + 1].timeStamp {
          p := p + 1;
        }
        assert p == Child(View(), q);
        if heap[q].timeStamp > heap[p].timeStamp {
          Exchange(q, p, heap[q], heap[p]);
          q := p;
          p := q * 2 + 1;
        } else {
          break;
        }
      }
    }

    method Exchange(q: nat, p: nat, u: SNode, t: SNode)
      requires Valid() && q < p <= lastEntry && heap[q] == u && heap[p] == t
      modifies heap, u`heapLoc, t`heapLoc
      ensures Valid() && View() == Swap(old(View()), q, p)
    {
      heap[p] := heap[q];
      heap[p].heapLoc := p;
      heap[q] := t;
      heap[q].heapLoc := q;
    }

    /** The part of pop before a packet is packed: the first node leaves the heap when its time has come. */
    method TakeDue(now: int) returns (n: SNode?)
      requires Valid()
      modifies this`lastEntry, this`nodes, heap, nodes`heapLoc
      ensures Valid()
      ensures n == null ==> View() == old(View()) && nodes == old(nodes)
      ensures n == null && Ordered(View()) ==> forall i | 0 <= i < |View()| :: now < View()[i].ts
      ensures n != null ==> n in old(nodes) && n.heapLoc < 0 && n.timeStamp == old(n.timeStamp) <= now
      ensures n != null ==> nodes == old(nodes) - {n} && old(View()) != [] && View() == Removed(old(View()), 0)
      ensures n != null && old(Ordered(View())) ==>
        Ordered(View()) && forall i | 0 <= i < |old(View())| :: n.timeStamp <= old(View())[i].ts
    {
      hide Removed;
      FirstIsEarliest(View());
      if lastEntry == -1 || now < heap[0].timeStamp {
        return null;
      }
      n := heap[0];
      assert View()[0] == Entry(heap[0], heap[0].timeStamp);
      Remove(n);
    }

    /** Brings a node to the front, or puts it on the heap. */
    method Update(n: SNode, reschedule: bool)
      requires Valid() && (n.heapLoc >= 0 <==> n in nodes) && (n in nodes || lastEntry + 1 < heap.Length)
      modifies this`lastEntry, this`nodes, heap, nodes`heapLoc, n
      ensures Valid() && nodes == old(nodes) + {n}
      ensures old(n in nodes) && !reschedule ==> View() == old(View())
      ensures old(n in nodes) && reschedule && old(n.heapLoc) == 0 ==>
        View() == old(View())[0 := Entry<SNode?>.Entry(n, 1)]
      ensures old(n in nodes) && reschedule && old(n.heapLoc) > 0 ==>
        View() == Added(Removed(old(View()), old(n.heapLoc)), Entry<SNode?>.Entry(n, 1))
      ensures old(n !in nodes) ==> View() == Added(old(View()), Entry<SNode?>.Entry(n, 1))
    {
      hide Added, Removed;
      if n.heapLoc >= 0 {
        if !reschedule {
          return;
        }
        if n.heapLoc == 0 {
          n.timeStamp := 1;
          return;
        }
        Remove(n);
      }
      InsertNode(1, n);
    }
  }
}
