/** The sorted timer list: a singly linked list of timer nodes kept in
    nondecreasing order of expiration time, with sorted insertion and the
    expiry pass that pops every due node from the front. Time points are
    integers (milliseconds); callbacks are identified by a number, and firing
    one appends its number to a ghost log. */
module TimerListModel {

  class TimerNode {
    const expirationTime: int
    const callback: nat
    var next: TimerNode?

    constructor (time: int, cb: nat)
      ensures expirationTime == time && callback == cb && next == null
    {
      expirationTime, callback, next := time, cb, null;
    }
  }

  /** The expiration times along a node sequence. */
  ghost function Times(ns: seq<TimerNode>): (t: seq<int>)
    ensures |t| == |ns|
  {
    if ns == [] then [] else [ns[0].expirationTime] + Times(ns[1..])
  }

  /** The callback numbers along a node sequence. */
  ghost function Callbacks(ns: seq<TimerNode>): (c: seq<nat>)
    ensures |c| == |ns|
  {
    if ns == [] then [] else [ns[0].callback] + Callbacks(ns[1..])
  }

  lemma {:induction false} TimesAt(ns: seq<TimerNode>)
    ensures forall i :: 0 <= i < |ns| ==> Times(ns)[i] == ns[i].expirationTime
  {
    if ns != [] {
      TimesAt(ns[1..]);
      assert forall i :: 0 < i < |ns| ==> ns[1..][i - 1] == ns[i];
    }
  }

  lemma {:induction false} CallbacksSnoc(ns: seq<TimerNode>, n: TimerNode)
    ensures Callbacks(ns + [n]) == Callbacks(ns) + [n.callback]
  {
    if ns != [] {
      assert (ns + [n])[1..] == ns[1..] + [n];
      CallbacksSnoc(ns[1..], n);
    }
  }

  lemma {:induction false} TimesAppend(a: seq<TimerNode>, b: seq<TimerNode>)
    ensures Times(a + b) == Times(a) + Times(b)
  {
    if a == [] {
      assert a + b == b;
    } else {
      assert (a + b)[0] == a[0] && (a + b)[1..] == a[1..] + b;
      TimesAppend(a[1..], b);
    }
  }

  ghost predicate Sorted(t: seq<int>)
  {
    forall i, j :: 0 <= i < j < |t| ==> t[i] <= t[j]
  }

  /** Where `addTimer` puts expiration `e`: in front of the head when the
      list is empty or `e` is strictly earlier than the head, otherwise after
      the head and after every following time strictly smaller than `e`. */
  function InsertPos(t: seq<int>, e: int): (p: nat)
    ensures p <= |t|
  {
    if |t| == 0 || e < t[0] then 0 else Scan(t, e, 1)
  }

  function Scan(t: seq<int>, e: int, i: nat): (p: nat)
    requires 1 <= i <= |t|
    ensures i <= p <= |t|
    decreases |t| - i
  {
    if i == |t| || t[i] >= e then i else Scan(t, e, i + 1)
  }

  /** The number of leading times that are due at `now`. */
  function DuePrefix(t: seq<int>, now: int): (k: nat)
    ensures k <= |t|
  {
    if |t| == 0 || t[0] > now then 0 else 1 + DuePrefix(t[1..], now)
  }

  /** Each node links to the following one and the last to null; no node
      occurs twice. */
  ghost predicate Linked(ns: seq<TimerNode>)
    reads ns
  {
    (forall i :: 0 < i < |ns| ==> ns[i - 1].next == ns[i]) &&
    (ns != [] ==> ns[|ns| - 1].next == null) &&
    (forall i, j :: 0 <= i < j < |ns| ==> ns[i] != ns[j])
  }

  lemma LinkedTail(ns: seq<TimerNode>)
    requires Linked(ns) && ns != []
    ensures Linked(ns[1..])
    ensures ns[0].next == if |ns| > 1 then ns[1] else null
  {
    assert forall i :: 0 <= i < |ns| - 1 ==> ns[1..][i] == ns[i + 1];
    if |ns| > 1 {
      assert ns[0].next == ns[1];
    }
  }

  /** A fresh node linked in front of a chain. */
  lemma LinkedCons(ns: seq<TimerNode>, node: TimerNode)
    requires Linked(ns) && node !in ns
    requires node.next == if ns == [] then null else ns[0]
    ensures Linked([node] + ns)
  {
    var u := [node] + ns;
    assert forall i :: 0 < i < |u| ==> u[i] == ns[i - 1];
  }

  /** A node linked in after position `k` of a chain whose other links are
      intact. */
  lemma LinkedSplice(ns: seq<TimerNode>, k: nat, node: TimerNode)
    requires k < |ns| && node !in ns
    requires forall i, j :: 0 <= i < j < |ns| ==> ns[i] != ns[j]
    requires forall i :: 0 < i < |ns| && i != k + 1 ==> ns[i - 1].next == ns[i]
    requires k + 1 < |ns| ==> ns[|ns| - 1].next == null
    requires ns[k].next == node
    requires node.next == if k + 1 < |ns| then ns[k + 1] else null
    ensures Linked(ns[..k + 1] + [node] + ns[k + 1..])
  {
    var u := ns[..k + 1] + [node] + ns[k + 1..];
    assert forall i :: 0 <= i < |u| ==> u[i] == if i <= k then ns[i] else if i == k + 1 then node else ns[i - 1];
    forall i | 0 < i < |u|
      ensures u[i - 1].next == u[i]
    {
      if i <= k {
      } else if i <= k + 2 {
      } else {
        assert u[i - 1] == ns[i - 2] && u[i] == ns[i - 1];
      }
    }
  }

  class TimerList {
    var head: TimerNode?
    /** The nodes in list order, from the head. */
    ghost var nodes: seq<TimerNode>
    /** The callbacks fired so far, in firing order. */
    ghost var fired: seq<nat>

    /** `head` starts the chain `nodes`. */
    ghost predicate Valid()
      reads this, nodes
    {
      (head == null <==> nodes == []) &&
      (nodes != [] ==> head == nodes[0]) &&
      Linked(nodes) && Sorted(Times(nodes))
    }

    constructor ()
      ensures Valid() && nodes == [] && fired == []
    {
      head, nodes, fired := null, [], [];
    }

    /** `addTimer`: a node expiring at `start + intervalMillis`, linked in at
        `InsertPos`; every old node keeps its place relative to the others. */
    method AddTimer(start: int, intervalMillis: int, cb: nat) returns (node: TimerNode)
      requires Valid()
      modifies this, nodes
      ensures Valid() && fresh(node) && fired == old(fired)
      ensures node.expirationTime == start + intervalMillis && node.callback == cb
      ensures var p := InsertPos(Times(old(nodes)), start + intervalMillis);
              nodes == old(nodes)[..p] + [node] + old(nodes)[p..]
    {
      var expiration := start + intervalMillis;
      node := new TimerNode(expiration, cb);
      if head == null || expiration < head.expirationTime {
        TimesAt(nodes);
        assert InsertPos(Times(nodes), expiration) == 0;
        InsertedSorted(nodes, node);
        assert [node] + nodes == nodes[..0] + [node] + nodes[0..];
        PushFront(node);
      } else {
        var current, idx := FindPredecessor(expiration);
        InsertedSorted(nodes, node);
        LinkAfter(current, idx, node);
      }
    }

    /** The first branch of `addTimer`: the node becomes the new head. */
    method PushFront(node: TimerNode)
      requires Valid() && node !in nodes && Sorted(Times([node] + nodes))
      modifies this`head, this`nodes, node
      ensures Valid() && nodes == [node] + old(nodes)
    {
      node.next := head;
      head := node;
      LinkedCons(nodes, node);
      nodes := [node] + nodes;
    }

    /** The second branch of `addTimer`: the node is linked in after
        `current`, the chain's node at position `idx`. */
    method LinkAfter(current: TimerNode, ghost idx: nat, node: TimerNode)
      requires Valid() && idx < |nodes| && current == nodes[idx] && node !in nodes
      requires Sorted(Times(nodes[..idx + 1] + [node] + nodes[idx + 1..]))
      modifies this`nodes, current, node
      ensures Valid() && nodes == old(nodes)[..idx + 1] + [node] + old(nodes)[idx + 1..]
    {
      assert current.next == if idx + 1 < |nodes| then nodes[idx + 1] else null;
      node.next := current.next;
      current.next := node;
      LinkedSplice(nodes, idx, node);
      nodes := nodes[..idx + 1] + [node] + nodes[idx + 1..];
    }

    /** The walk of `addTimer` past the head: stops at the node after which
        `e` is linked in. */
    method FindPredecessor(e: int) returns (current: TimerNode, ghost idx: nat)
      requires Valid() && head != null && head.expirationTime <= e
      ensures idx < |nodes| && current == nodes[idx]
      ensures InsertPos(Times(nodes), e) == idx + 1
    {
      current := head;
      idx := 0;
      while current.next != null && current.next.expirationTime < e
        invariant idx < |nodes| && current == nodes[idx]
        invariant forall j :: 1 <= j <= idx ==> nodes[j].expirationTime < e
        decreases |nodes| - idx
      {
        assert current.next == nodes[idx + 1];
        current := current.next;
        idx := idx + 1;
      }
      assert current.next == if idx + 1 < |nodes| then nodes[idx + 1] else null;
      TimesAt(nodes);
      ScanFinds(Times(nodes), e, idx + 1);
    }

    /** The inner loop of `tick`: while the head is due at `now`, fire its
        callback and unlink it. */
    method ExpireDue(now: int)
      requires Valid()
      modifies this
      ensures Valid()
      ensures var k := DuePrefix(Times(old(nodes)), now);
              nodes == old(nodes)[k..] && fired == old(fired) + Callbacks(old(nodes)[..k])
      ensures head == null || head.expirationTime > now
    {
      ghost var orig, log := nodes, fired;
      ghost var k := 0;
      assert orig[..0] == [] && orig[0..] == orig;
      while head != null && head.expirationTime <= now
        invariant Valid()
        invariant k <= |orig| && nodes == orig[k..]
        invariant fired == log + Callbacks(orig[..k])
        invariant DuePrefix(Times(orig), now) == k + DuePrefix(Times(nodes), now)
        decreases |nodes|
      {
        DueStep(orig, log, k, now);
        PopFront();
        k := k + 1;
      }
    }

    /** One pass of the loop in `tick`: fire the head's callback and unlink
        the head. */
    method PopFront()
      requires Valid() && head != null
      modifies this
      ensures Valid() && nodes == old(nodes)[1..] && fired == old(fired) + [old(nodes)[0].callback]
    {
      LinkedTail(nodes);
      assert Times(nodes[1..]) == Times(nodes)[1..];
      fired := fired + [head.callback];
      head := head.next;
      nodes := nodes[1..];
    }
  }

  /** The bookkeeping of one pass of the expiry loop over the original
      chain `orig`, `k` nodes in. */
  lemma DueStep(orig: seq<TimerNode>, log: seq<nat>, k: nat, now: int)
    requires k < |orig| && orig[k].expirationTime <= now
    ensures log + Callbacks(orig[..k + 1]) == log + Callbacks(orig[..k]) + [orig[k..][0].callback]
    ensures orig[k + 1..] == orig[k..][1..]
    ensures DuePrefix(Times(orig[k..]), now) == 1 + DuePrefix(Times(orig[k + 1..]), now)
  {
    assert orig[..k + 1] == orig[..k] + [orig[k]];
    CallbacksSnoc(orig[..k], orig[k]);
    assert orig[k..][1..] == orig[k + 1..];
    assert Times(orig[k..])[1..] == Times(orig[k + 1..]);
  }

  /** The scan stops at the first index `i >= 1` that ends the list or holds
      a time not below `e`. */
  lemma {:induction false} ScanFinds(t: seq<int>, e: int, i: nat)
    requires 1 <= i <= |t| && t[0] <= e
    requires forall j :: 1 <= j < i ==> t[j] < e
    requires i == |t| || t[i] >= e
    ensures InsertPos(t, e) == i
  {
    ScanFrom(t, e, 1, i);
  }

  lemma {:induction false} ScanFrom(t: seq<int>, e: int, from: nat, i: nat)
    requires 1 <= from <= i <= |t|
    requires forall j :: from <= j < i ==> t[j] < e
    requires i == |t| || t[i] >= e
    ensures Scan(t, e, from) == i
    decreases i - from
  {
    if from < i {
      ScanFrom(t, e, from + 1, i);
    }
  }

  /** The insertion point follows every time not above `e` from the front
      that the scan passes, and precedes a time not below `e`. */
  lemma {:induction false} InsertPosBounds(t: seq<int>, e: int)
    ensures var p := InsertPos(t, e);
            (forall j :: 0 <= j < p ==> t[j] <= e) && (p < |t| ==> e <= t[p])
  {
    if |t| > 0 && t[0] <= e {
      ScanBounds(t, e, 1);
    }
  }

  lemma {:induction false} ScanBounds(t: seq<int>, e: int, i: nat)
    requires 1 <= i <= |t|
    requires forall j :: 0 <= j < i ==> t[j] <= e
    ensures var p := Scan(t, e, i);
            (forall j :: 0 <= j < p ==> t[j] <= e) && (p < |t| ==> e <= t[p])
    decreases |t| - i
  {
    if i < |t| && t[i] < e {
      ScanBounds(t, e, i + 1);
    }
  }

  /** Inserting at `InsertPos` keeps a sorted list sorted. */
  lemma InsertKeepsSorted(t: seq<int>, e: int)
    requires Sorted(t)
    ensures var p := InsertPos(t, e); Sorted(t[..p] + [e] + t[p..])
  {
    var p := InsertPos(t, e);
    InsertPosBounds(t, e);
    var u := t[..p] + [e] + t[p..];
    assert forall i :: 0 <= i < |u| ==> u[i] == if i < p then t[i] else if i == p then e else t[i - 1];
  }

  /** The node sequence after an insertion at `InsertPos` has sorted times. */
  lemma InsertedSorted(ns: seq<TimerNode>, node: TimerNode)
    requires Sorted(Times(ns))
    ensures var p := InsertPos(Times(ns), node.expirationTime);
            Sorted(Times(ns[..p] + [node] + ns[p..]))
  {
    var t, e := Times(ns), node.expirationTime;
    var p := InsertPos(t, e);
    InsertKeepsSorted(t, e);
    assert ns == ns[..p] + ns[p..];
    TimesAppend(ns[..p], ns[p..]);
    TimesAppend(ns[..p], [node]);
    TimesAppend(ns[..p] + [node], ns[p..]);
    assert t[..p] == Times(ns[..p]);
    assert t[p..] == Times(ns[p..]);
    assert [node][1..] == [];
    assert Times([node]) == [e];
    assert Times(ns[..p] + [node] + ns[p..]) == t[..p] + [e] + t[p..];
  }

  /** On a sorted list, a time equal to the head's goes right after the head,
      in front of any later equal times. */
  lemma EqualTimeAfterHead()
    ensures InsertPos([5, 5], 5) == 1
  {
  }

  /** `DuePrefix` is the maximal prefix of times not after `now`. */
  lemma {:induction false} DuePrefixMaximal(t: seq<int>, now: int)
    ensures var k := DuePrefix(t, now);
            (forall i :: 0 <= i < k ==> t[i] <= now) && (k < |t| ==> t[k] > now)
  {
    if |t| > 0 && t[0] <= now {
      DuePrefixMaximal(t[1..], now);
      assert forall i :: 1 <= i < |t| ==> t[1..][i - 1] == t[i];
    }
  }

  /** On a sorted list, a timer is due exactly when it lies in the prefix. */
  lemma DuePrefixSorted(t: seq<int>, now: int)
    requires Sorted(t)
    ensures forall i :: 0 <= i < |t| ==> (i < DuePrefix(t, now) <==> t[i] <= now)
  {
    DuePrefixMaximal(t, now);
  }
}
