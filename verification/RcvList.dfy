/** The receiver's list of sockets by the time of their last event, and the loop that services the late ones. */
module RcvLists {

  class RNode {
    var timeStamp: int
    var prev: RNode?
    var next: RNode?
    var onList: bool

    constructor ()
      ensures !onList
    {
      timeStamp := 0;
      prev := null;
      next := null;
      onList := false;
    }
  }

  ghost predicate Distinct(s: seq<RNode>) {
    forall i, j | 0 <= i < j < |s| :: s[i] != s[j]
  }

  ghost function Succ(s: seq<RNode>, i: int): RNode? {
    if 0 <= i + 1 < |s| then s[i + 1] else null
  }

  ghost function Pred(s: seq<RNode>, i: int): RNode? {
    if 0 <= i - 1 < |s| then s[i - 1] else null
  }

  /** The nodes of s are linked in both directions, in this order. */
  ghost predicate Chained(s: seq<RNode>)
    reads s`next, s`prev
  {
    && (forall i {:trigger s[i].next} | 0 <= i < |s| :: s[i].next == Succ(s, i))
    && (forall i {:trigger s[i].prev} | 0 <= i < |s| :: s[i].prev == Pred(s, i))
  }

  /** The times of the nodes. */
  ghost function Times(s: seq<RNode>): (r: seq<int>)
    reads s`timeStamp
    ensures |r| == |s| && forall i | 0 <= i < |s| :: r[i] == s[i].timeStamp
  {
    if s == [] then [] else Times(s[..|s| - 1]) + [s[|s| - 1].timeStamp]
  }

  /** In order of time, and none later than now. */
  ghost predicate InOrder(times: seq<int>, now: int) {
    && (forall i, j | 0 <= i < j < |times| :: times[i] <= times[j])
    && (forall i | 0 <= i < |times| :: times[i] <= now)
  }

  /** s without its element k. */
  function Without<T>(s: seq<T>, k: nat): seq<T>
    requires k < |s|
  {
    s[..k] + s[k + 1..]
  }

  function Alive(s: seq<RNode>, alive: RNode -> bool): seq<RNode> {
    if s == [] then []
    else
      var n := s[|s| - 1];
      Alive(s[..|s| - 1], alive) + if alive(n) then [n] else []
  }

  // ---------- the limit of the timer loop ----------

  const WORD := 0x1_0000_0000_0000_0000

  /** The limit is a difference of unsigned words. */
  function LateLimit(now: nat, timeout: nat): nat {
    (now - timeout) % WORD
  }

  /** It lies in the past exactly from the timeout onwards. */
  lemma LimitInThePast(now: nat, timeout: nat)
    requires now < WORD && 0 < timeout < WORD
    ensures LateLimit(now, timeout) <= now <==> timeout <= now
  {
    if now < timeout {
      assert now - timeout + WORD == LateLimit(now, timeout);
    }
  }

  /** One turn of the loop: the first node is serviced and moves to the end with the present time, or is removed. */
  function Turn(s: seq<RNode>, times: seq<int>, now: int, alive: RNode -> bool): (r: (seq<RNode>, seq<int>))
    requires |s| == |times| && s != []
    ensures |r.0| == |r.1|
  {
    if alive(s[0]) then (s[1..] + [s[0]], times[1..] + [now]) else (s[1..], times[1..])
  }

  /** The nodes and the times of their last events after k turns of the loop, which changes nothing any more once its
      condition fails. */
  function Turns(s: seq<RNode>, times: seq<int>, limit: int, clock: nat -> int, alive: RNode -> bool, k: nat)
    : (r: (seq<RNode>, seq<int>))
    requires |s| == |times|
    ensures |r.0| == |r.1|
  {
    if k == 0 then (s, times)
    else
      var (s', times') := Turns(s, times, limit, clock, alive, k - 1);
      if s' == [] || times'[0] >= limit then (s', times') else Turn(s', times', clock(k), alive)
  }

  /** As long as the clock stays below the limit, the loop finds a late node after any number of turns, if one of the
      nodes is alive. */
  lemma {:induction false} NeverThrough(s: seq<RNode>, times: seq<int>, limit: int, clock: nat -> int,
                                        alive: RNode -> bool, n: RNode, k: nat)
    requires |s| == |times| && n in s && alive(n)
    requires forall i | 0 <= i < |times| :: times[i] < limit
    requires forall i: nat | i <= k :: clock(i) < limit
    ensures var (s', times') := Turns(s, times, limit, clock, alive, k);
      n in s' && forall i | 0 <= i < |times'| :: times'[i] < limit
  {
    if k > 0 {
      NeverThrough(s, times, limit, clock, alive, n, k - 1);
      var (s', times') := Turns(s, times, limit, clock, alive, k - 1);
      var j :| 0 <= j < |s'| && s'[j] == n;
      if j > 0 {
        assert s'[1..][j - 1] == n;
      }
    }
  }

  class RcvUList {

    var first: RNode?
    var last: RNode?
    ghost var spine: seq<RNode>
    ghost var nodes: set<RNode>

    ghost predicate Valid()
      reads this, spine`next, spine`prev, spine`onList
    {
      && Distinct(spine) && Chained(spine)
      && first == (if spine == [] then null else spine[0])
      && last == (if spine == [] then null else spine[|spine| - 1])
      && forall i | 0 <= i < |spine| :: spine[i].onList && spine[i] in nodes
    }

    constructor ()
      ensures Valid() && spine == []
    {
      first := null;
      last := null;
      spine := [];
      nodes := {};
    }

    /** A node with a fresh time goes to the end. */
    method Insert(n: RNode, now: int)
      requires Valid() && n !in spine && n.onList
      modifies this, n, nodes`next
      ensures Valid() && spine == old(spine) + [n]
      ensures Times(spine) == old(Times(spine)) + [now]
    {
      hide Distinct, Chained;
      n.timeStamp := now;
      nodes := nodes + {n};
      Append(n);
      assert spine[..|spine| - 1] == old(spine);
    }

    method Append(n: RNode)
      requires Valid() && n !in spine && n.onList && n in nodes
      modifies this`first, this`last, this`spine, n`prev, n`next, nodes`next
      ensures Valid() && spine == old(spine) + [n]
    {
      ghost var s := spine;
      AppendDistinct(s, n);
      SetPrev(n, last, s, -1);
      SetNext(n, null, s, -1);
      if first == null {
        first := n;
      } else {
        assert last == s[|s| - 1] && last in s;
        SetNext(last, n, s, |s| - 1);
      }
      last := n;
      spine := s + [n];
      forall i | 0 <= i < |spine|
        ensures spine[i].next == Succ(spine, i)
        ensures spine[i].prev == Pred(spine, i)
        ensures spine[i].onList
      {
        assert i < |s| ==> spine[i] == s[i] && s[i].prev == old(s[i].prev);
        assert i + 1 < |s| ==> s[i].next == old(s[i].next);
        assert i == |s| ==> spine[i] == n && n.prev == old(last);
      }
    }

    /** Writing one link changes no other; j is the place of m in s, -1 if it is not there. */
    method SetNext(m: RNode, v: RNode?, ghost s: seq<RNode>, ghost j: int)
      requires Distinct(s) && -1 <= j < |s| && (if j >= 0 then s[j] == m else m !in s)
      modifies m`next
      ensures m.next == v && forall i {:trigger s[i].next} | 0 <= i < |s| && i != j :: s[i].next == old(s[i].next)
    {
      assert forall i | 0 <= i < |s| && i != j :: s[i] != m;
      m.next := v;
    }

    method SetPrev(m: RNode, v: RNode?, ghost s: seq<RNode>, ghost j: int)
      requires Distinct(s) && -1 <= j < |s| && (if j >= 0 then s[j] == m else m !in s)
      modifies m`prev
      ensures m.prev == v && forall i {:trigger s[i].prev} | 0 <= i < |s| && i != j :: s[i].prev == old(s[i].prev)
    {
      assert forall i | 0 <= i < |s| && i != j :: s[i] != m;
      m.prev := v;
    }

    /** Takes n out, wherever it is; k is where it was. */
    method Remove(n: RNode) returns (ghost k: nat)
      requires Valid() && (n.onList ==> n in spine)
      modifies this`first, this`last, this`spine, n`prev, n`next, nodes`prev, nodes`next
      ensures Valid()
      ensures !n.onList ==> spine == old(spine)
      ensures n.onList ==> k < |old(spine)| && old(spine)[k] == n && spine == Without(old(spine), k) && n !in spine
    {
      if !n.onList {
        return 0;
      }
      k :| 0 <= k < |spine| && spine[k] == n;
      hide Distinct, Chained;
      Unlink(n, k);
      Detach(n);
    }

    method Detach(n: RNode)
      requires Valid() && n !in spine
      modifies n`prev, n`next
      ensures Valid()
    {
      hide Distinct;
      n.next := null;
      n.prev := null;
    }

    /** A node that had an event goes to the end, with the present time; k is where it was. */
    method Update(n: RNode, now: int) returns (ghost k: nat)
      requires Valid() && (n.onList ==> n in spine)
      modifies this`first, this`last, this`spine, n`timeStamp, n`prev, n`next, nodes`prev, nodes`next
      ensures Valid()
      ensures !n.onList ==> spine == old(spine) && Times(spine) == old(Times(spine))
      ensures n.onList ==> k < |old(spine)| && old(spine)[k] == n && spine == Without(old(spine), k) + [n]
      ensures n.onList ==> Times(spine) == Without(old(Times(spine)), k) + [now]
    {
      if !n.onList {
        return 0;
      }
      k :| 0 <= k < |spine| && spine[k] == n;
      ghost var w := Without(spine, k);
      WithoutDistinct(spine, k);
      TimesWithout(spine, k);
      hide *;
      SetTime(n, now, w);
      ToEnd(n, k);
      TimesAppend(w, n);
    }

    method SetTime(n: RNode, now: int, ghost w: seq<RNode>)
      requires n !in w
      modifies n`timeStamp
      ensures n.timeStamp == now && Times(w) == old(Times(w))
    {
      hide Times;
      n.timeStamp := now;
    }

    method ToEnd(n: RNode, ghost k: nat)
      requires Valid() && k < |spine| && spine[k] == n
      modifies this`first, this`last, this`spine, n`prev, n`next, nodes`prev, nodes`next
      ensures Valid() && spine == Without(old(spine), k) + [n]
    {
      if n.next == null {
        assert n.next == Succ(spine, k);
        assert spine == Without(spine, k) + [n];
        return;
      }
      hide Distinct, Chained;
      Unlink(n, k);
      Append(n);
    }

    /** Takes n out of the chain. */
    method Unlink(n: RNode, ghost k: nat)
      requires Valid() && k < |spine| && spine[k] == n
      modifies this`first, this`last, this`spine, nodes`prev, nodes`next
      ensures Valid() && spine == Without(old(spine), k) && n !in spine
    {
      ghost var s := spine;
      WithoutDistinct(s, k);
      Bypass(n, k);
      BypassedChain(s, k);
      hide Distinct, Chained, Bypassed;
      assert forall i | 0 <= i < |s| :: s[i].onList;
      spine := Without(s, k);
    }

    method Bypass(n: RNode, ghost k: nat)
      requires Valid() && k < |spine| && spine[k] == n
      modifies this`first, this`last, nodes`prev, nodes`next
      ensures Bypassed(spine, k) && forall i | 0 <= i < |spine| :: spine[i].onList
      ensures var s := Without(spine, k);
        first == (if s == [] then null else s[0]) && last == (if s == [] then null else s[|s| - 1])
    {
      ghost var s := spine;
      assert k > 0 ==> s[k - 1] in s;
      assert k + 1 < |s| ==> s[k + 1] in s;
      if n.prev == null {
        first := n.next;
        if first == null {
          last := null;
        } else {
          SetPrev(first, null, s, k + 1);
        }
      } else {
        SetNext(n.prev, n.next, s, k - 1);
        assert s[k].next == old(s[k].next);
        if n.next == null {
          last := n.prev;
        } else {
          SetPrev(n.next, n.prev, s, k + 1);
        }
      }
    }

    ghost predicate InTime(now: int)
      reads this, spine`timeStamp
    {
      InOrder(Times(spine), now)
    }

    /** The first late nodes of s have been dealt with, and the list is what that has made of it. */
    ghost predicate SweptTo(s: seq<RNode>, times: seq<int>, alive: RNode -> bool, limit: int, late: nat,
                            serviced: seq<RNode>, renewed: seq<int>)
      reads this, spine`timeStamp
    {
      Swept(s, times, alive, limit, late, serviced, renewed, spine, Times(spine))
    }

    /** The timer loop: while the first node had its last event before limit, its socket is serviced and moves to the
        end, or is removed when it is no longer alive. The clock is read again for every node serviced. */
    method ServiceLate(limit: int, clock: nat -> int, alive: RNode -> bool)
      returns (serviced: seq<RNode>, ghost late: nat)
      requires Valid() && InOrder(Times(spine), clock(0)) && limit <= clock(0)
      requires forall i, j | 0 <= i <= j :: clock(i) <= clock(j)
      modifies this`first, this`last, this`spine, nodes
      ensures Valid() && late <= |old(spine)|
      ensures forall i | 0 <= i < |old(spine)| :: old(Times(spine))[i] < limit <==> i < late
      ensures serviced == Alive(old(spine)[..late], alive) && spine == old(spine)[late..] + serviced
      ensures exists now :: InOrder(Times(spine), now)
      ensures forall i | 0 <= i < |spine| :: spine[i].timeStamp >= limit
      ensures forall i | 0 <= i < late :: !alive(old(spine)[i]) ==> !old(spine)[i].onList
    {
      ghost var s, times := spine, Times(spine);
      ghost var renewed, now;
      SweptStart(s, times, alive, limit);
      FirstNode();
      serviced, late, renewed, now := Sweep(limit, clock, alive, s, times);
      AllSwept(s, times, alive, limit, late, serviced, renewed, now);
      hide Alive, Times, InOrder;
    }

    method Sweep(limit: int, clock: nat -> int, alive: RNode -> bool, ghost s: seq<RNode>, ghost times: seq<int>)
      returns (serviced: seq<RNode>, ghost late: nat, ghost renewed: seq<int>, ghost now: int)
      requires Valid() && InTime(clock(0)) && limit <= clock(0) && SweptTo(s, times, alive, limit, 0, [], [])
      requires forall i, j | 0 <= i <= j :: clock(i) <= clock(j)
      requires (first != null ==> first in nodes) && Distinct(s)
      modifies this`first, this`last, this`spine, nodes
      ensures Valid() && InTime(now) && SweptTo(s, times, alive, limit, late, serviced, renewed) && late <= |s|
      ensures forall i | 0 <= i < late :: !alive(s[i]) ==> !s[i].onList
      ensures first == null || first.timeStamp >= limit
    {
      hide Valid, SweptTo, Alive, InTime;
      serviced, late, renewed := [], 0, [];
      var ticks := 0;
      while first != null && first.timeStamp < limit
        invariant Valid() && InTime(clock(ticks)) && limit <= clock(ticks)
        invariant SweptTo(s, times, alive, limit, late, serviced, renewed) && late <= |s|
        invariant first != null ==> first in nodes
        invariant forall i | 0 <= i < late :: !alive(s[i]) ==> !s[i].onList
        decreases |s| - late
      {
        var n := first;
        TurnOn(n, clock(ticks), clock(ticks + 1), s, times, alive, limit, late, serviced, renewed);
        if alive(n) {
          ticks := ticks + 1;
          serviced := serviced + [n];
          renewed := renewed + [clock(ticks)];
        }
        FirstNode();
        late := late + 1;
      }
      now := clock(ticks);
    }

    lemma FirstNode()
      requires Valid()
      ensures first != null ==> first in nodes
    {
      hide Distinct, Chained;
    }

    lemma FirstTime()
      requires Valid()
      ensures if first == null then spine == []
              else spine != [] && spine[0] == first && Times(spine)[0] == first.timeStamp
    {
      hide Distinct, Chained, Times;
    }

    /** After the last turn nothing late is left. */
    lemma AllSwept(s: seq<RNode>, times: seq<int>, alive: RNode -> bool, limit: int, late: nat,
                   serviced: seq<RNode>, renewed: seq<int>, now: int)
      requires Valid() && InTime(now) && SweptTo(s, times, alive, limit, late, serviced, renewed)
      requires first == null || first.timeStamp >= limit
      ensures late <= |s| == |times| && forall i | 0 <= i < |s| :: times[i] < limit <==> i < late
      ensures serviced == Alive(s[..late], alive) && spine == s[late..] + serviced
      ensures InOrder(Times(spine), now) && forall i | 0 <= i < |spine| :: spine[i].timeStamp >= limit
    {
      FirstTime();
      hide Valid, Times, Alive;
      NoneLate(Times(spine), now, limit);
      SweptEnd(s, times, alive, limit, late, serviced, renewed, spine, Times(spine));
    }

    /** The body of the loop, whatever the clock says. */
    method TakeTurn(n: RNode, now: int, alive: RNode -> bool)
      requires Valid() && first == n
      modifies this`first, this`last, this`spine, n`timeStamp, n`onList, nodes`prev, nodes`next
      ensures Valid() && old(spine) != []
      ensures (spine, Times(spine)) == Turn(old(spine), old(Times(spine)), now, alive)
      ensures !alive(n) ==> !n.onList
    {
      FirstTime();
      hide Valid, Times;
      if alive(n) {
        ServiceFirst(n, now);
      } else {
        RemoveFirst(n);
      }
    }

    /** A turn deals with one more late node. */
    method TurnOn(n: RNode, ghost before: int, now: int, ghost s: seq<RNode>, ghost times: seq<int>,
                  alive: RNode -> bool, ghost limit: int, ghost late: nat,
                  ghost serviced: seq<RNode>, ghost renewed: seq<int>)
      requires Valid() && first == n && n.timeStamp < limit && InTime(before) && before <= now && limit <= now
      requires SweptTo(s, times, alive, limit, late, serviced, renewed)
      modifies this`first, this`last, this`spine, n`timeStamp, n`onList, nodes`prev, nodes`next
      ensures Valid() && InTime(if alive(n) then now else before) && late < |s|
      ensures s[late] == n && (!alive(n) ==> !n.onList)
      ensures SweptTo(s, times, alive, limit, late + 1, if alive(n) then serviced + [n] else serviced,
                      if alive(n) then renewed + [now] else renewed)
    {
      FirstTime();
      hide Valid, Times, Alive, Swept, InOrder;
      if alive(n) {
        SweptServed(s, times, alive, limit, late, serviced, renewed, spine, Times(spine), now);
        LaterInOrder(Times(spine), before, now);
        MovedInOrder(Times(spine), now);
      } else {
        SweptRemoved(s, times, alive, limit, late, serviced, renewed, spine, Times(spine));
        RestInOrder(Times(spine), before);
      }
      TakeTurn(n, now, alive);
    }

    method ServiceFirst(n: RNode, now: int)
      requires Valid() && first == n
      modifies this`first, this`last, this`spine, n`timeStamp, nodes`prev, nodes`next
      ensures Valid() && spine == old(spine)[1..] + [n] && Times(spine) == old(Times(spine))[1..] + [now]
    {
      ghost var s, times := spine, Times(spine);
      FirstIsFirst(s);
      WithoutFirst(s);
      WithoutFirst(times);
      hide Distinct, Chained, Times, Without;
      ghost var k := Update(n, now);
    }

    method RemoveFirst(n: RNode)
      requires Valid() && first == n
      modifies this`first, this`last, this`spine, n`onList, nodes`prev, nodes`next
      ensures Valid() && spine == old(spine)[1..] && !n.onList
      ensures Times(spine) == old(Times(spine))[1..]
    {
      ghost var s := spine;
      FirstIsFirst(s);
      WithoutFirst(s);
      TimesWithout(s, 0);
      WithoutFirst(Times(s));
      hide Distinct, Chained, Times, Without;
      ghost var k := Remove(n);
      Unmark(n);
    }

    method Unmark(n: RNode)
      requires Valid() && n !in spine
      modifies n`onList
      ensures Valid() && !n.onList
    {
      hide Distinct, Chained;
      n.onList := false;
    }
  }

  /** The neighbours of s[k] are linked past it. */
  ghost predicate Bypassed(s: seq<RNode>, k: nat)
    reads s
  {
    && (forall i {:trigger s[i].next} | 0 <= i < |s| && i != k :: s[i].next == Succ(s, if i == k - 1 then k else i))
    && (forall i {:trigger s[i].prev} | 0 <= i < |s| && i != k :: s[i].prev == Pred(s, if i == k + 1 then k else i))
  }

  lemma BypassedChain(s: seq<RNode>, k: nat)
    requires k < |s| && Bypassed(s, k)
    ensures Chained(Without(s, k))
  {
    var t := Without(s, k);
    forall i | 0 <= i < |t|
      ensures t[i].next == Succ(t, i) && t[i].prev == Pred(t, i)
    {
      var j := if i < k then i else i + 1;
      assert t[i] == s[j];
    }
  }

  /** Part of the way through the timer loop: the first late nodes of s have been dealt with. */
  ghost predicate Swept(s: seq<RNode>, times: seq<int>, alive: RNode -> bool, limit: int, late: nat,
                        serviced: seq<RNode>, renewed: seq<int>, spine: seq<RNode>, now: seq<int>) {
    && late <= |s| == |times| && |serviced| == |renewed|
    && spine == s[late..] + serviced && serviced == Alive(s[..late], alive)
    && now == times[late..] + renewed && (forall i | 0 <= i < |renewed| :: renewed[i] >= limit)
    && (forall i | 0 <= i < late :: times[i] < limit)
  }

  lemma SweptStart(s: seq<RNode>, times: seq<int>, alive: RNode -> bool, limit: int)
    requires |s| == |times|
    ensures Swept(s, times, alive, limit, 0, [], [], s, times)
  {
    assert s[..0] == [] && s[0..] + [] == s && times[0..] + [] == times;
  }

  lemma SweptServed(s: seq<RNode>, times: seq<int>, alive: RNode -> bool, limit: int, late: nat,
                    serviced: seq<RNode>, renewed: seq<int>, spine: seq<RNode>, now: seq<int>, t: int)
    requires Swept(s, times, alive, limit, late, serviced, renewed, spine, now)
    requires now != [] && now[0] < limit && |spine| == |now| && alive(spine[0]) && t >= limit
    ensures late < |s|
    ensures Swept(s, times, alive, limit, late + 1, serviced + [spine[0]], renewed + [t],
                  spine[1..] + [spine[0]], now[1..] + [t])
  {
    assert late < |s| && spine[0] == s[late];
    AliveMore(s, late, alive);
    HeadStep(s, late, serviced, spine[0]);
    HeadStep(times, late, renewed, t);
  }

  lemma SweptRemoved(s: seq<RNode>, times: seq<int>, alive: RNode -> bool, limit: int, late: nat,
                     serviced: seq<RNode>, renewed: seq<int>, spine: seq<RNode>, now: seq<int>)
    requires Swept(s, times, alive, limit, late, serviced, renewed, spine, now)
    requires now != [] && now[0] < limit && |spine| == |now| && !alive(spine[0])
    ensures late < |s|
    ensures Swept(s, times, alive, limit, late + 1, serviced, renewed, spine[1..], now[1..])
  {
    assert late < |s| && spine[0] == s[late];
    AliveMore(s, late, alive);
    HeadStep(s, late, serviced, spine[0]);
    HeadStep(times, late, renewed, 0);
  }

  lemma SweptEnd(s: seq<RNode>, times: seq<int>, alive: RNode -> bool, limit: int, late: nat,
                 serviced: seq<RNode>, renewed: seq<int>, spine: seq<RNode>, now: seq<int>)
    requires Swept(s, times, alive, limit, late, serviced, renewed, spine, now)
    requires forall i | 0 <= i < |now| :: now[i] >= limit
    ensures late <= |s| == |times| && serviced == Alive(s[..late], alive) && spine == s[late..] + serviced
    ensures forall i | 0 <= i < |times| :: times[i] < limit <==> i < late
  {
    forall i | late <= i < |times|
      ensures times[i] >= limit
    {
      assert now[i - late] == times[i];
    }
  }

  lemma LaterInOrder(times: seq<int>, now: int, later: int)
    requires InOrder(times, now) && now <= later
    ensures InOrder(times, later)
  {
  }

  lemma MovedInOrder(times: seq<int>, now: int)
    requires InOrder(times, now) && times != []
    ensures InOrder(times[1..] + [now], now)
  {
  }

  lemma RestInOrder(times: seq<int>, now: int)
    requires InOrder(times, now) && times != []
    ensures InOrder(times[1..], now)
  {
  }

  lemma NoneLate(times: seq<int>, now: int, limit: int)
    requires InOrder(times, now) && (times != [] ==> times[0] >= limit)
    ensures forall i | 0 <= i < |times| :: times[i] >= limit
  {
  }

  lemma AliveMore(s: seq<RNode>, k: nat, alive: RNode -> bool)
    requires k < |s|
    ensures Alive(s[..k + 1], alive) == Alive(s[..k], alive) + if alive(s[k]) then [s[k]] else []
  {
    assert s[..k + 1][..k] == s[..k];
  }

  lemma FirstIsFirst(s: seq<RNode>)
    requires Distinct(s) && s != []
    ensures s[0] in s && forall k | 0 <= k < |s| && s[k] == s[0] :: k == 0
  {
  }

  lemma WithoutFirst<T>(s: seq<T>)
    requires s != []
    ensures Without(s, 0) == s[1..]
  {
  }

  lemma TimesWithout(s: seq<RNode>, k: nat)
    requires k < |s|
    ensures Times(Without(s, k)) == Without(Times(s), k)
  {
    hide Times;
    var t := Without(s, k);
    forall i | 0 <= i < |t|
      ensures Times(t)[i] == Without(Times(s), k)[i]
    {
      assert t[i] == s[if i < k then i else i + 1];
    }
  }

  lemma HeadStep<T>(s: seq<T>, k: nat, rest: seq<T>, x: T)
    requires k < |s|
    ensures (s[k..] + rest)[1..] == s[k + 1..] + rest
    ensures (s[k..] + rest)[1..] + [x] == s[k + 1..] + (rest + [x])
  {
  }

  lemma TimesAppend(s: seq<RNode>, n: RNode)
    ensures Times(s + [n]) == Times(s) + [n.timeStamp]
  {
    hide Times;
  }

  lemma AppendDistinct(s: seq<RNode>, n: RNode)
    requires Distinct(s) && n !in s
    ensures Distinct(s + [n])
  {
  }

  lemma WithoutDistinct(s: seq<RNode>, k: nat)
    requires Distinct(s) && k < |s|
    ensures Distinct(Without(s, k)) && s[k] !in Without(s, k)
  {
  }
}
