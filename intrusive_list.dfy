/** The intrusive circular doubly-linked list: every `ListHead` is a node
    whose `next`/`prev` fields are rewired in place. A well-formed list is a
    ring, described by a ghost sequence of its nodes starting at the head. */
module IntrusiveList {

  function Succ(i: nat, n: nat): (j: nat)
    requires i < n
    ensures j < n
  {
    if i + 1 == n then 0 else i + 1
  }

  function Pred(i: nat, n: nat): (j: nat)
    requires i < n
    ensures j < n
  {
    if i == 0 then n - 1 else i - 1
  }

  class ListHead {
    var next: ListHead
    var prev: ListHead

    /** A new node is an empty ring: both links point to itself. */
    constructor ()
      ensures next == this && prev == this
    {
      next, prev := this, this;
    }

    /** `insert_between`: the four link writes, in source order. When the
        ring described by `nodes` has `prevEntry` and `nextEntry` adjacent
        at `k` and `k + 1` and this node is outside it, the result is the
        ring with this node spliced in between. */
    method InsertBetween(prevEntry: ListHead, nextEntry: ListHead, ghost nodes: seq<ListHead>, ghost k: nat)
      modifies this, prevEntry, nextEntry
      ensures prevEntry.next == this && nextEntry.prev == this
      ensures next == (if this == prevEntry then this else nextEntry)
      ensures prev == (if this == nextEntry then this else prevEntry)
      ensures old(Ring(nodes)) && k < |nodes| && prevEntry == nodes[k] &&
              nextEntry == nodes[Succ(k, |nodes|)] && this !in nodes ==>
                Ring(nodes[..k + 1] + [this] + nodes[k + 1..])
    {
      ghost var wasRing := Ring(nodes);
      next := nextEntry;
      prev := prevEntry;
      prevEntry.next := this;
      nextEntry.prev := this;
      if wasRing && k < |nodes| && prevEntry == nodes[k] && nextEntry == nodes[Succ(k, |nodes|)] && this !in nodes {
        SpliceIsRing(nodes, k, this);
      }
    }

    /** `add`: insert right after `head`, so the newest node comes first. */
    method Add(head: ListHead, ghost nodes: seq<ListHead>)
      modifies this, head, head.next
      ensures old(Ring(nodes)) && nodes != [] && nodes[0] == head && this !in nodes ==>
                Ring([head, this] + nodes[1..])
      ensures head.next == this
    {
      assert Ring(nodes) && nodes != [] && nodes[0] == head ==> head.next == nodes[Succ(0, |nodes|)];
      InsertBetween(head, head.next, nodes, 0);
      assert nodes != [] ==> nodes[..1] + [this] + nodes[1..] == [nodes[0], this] + nodes[1..];
    }

    /** `add_tail`: insert right before `head`, so the newest node comes
        last. */
    method AddTail(head: ListHead, ghost nodes: seq<ListHead>)
      modifies this, head, head.prev
      ensures old(Ring(nodes)) && nodes != [] && nodes[0] == head && this !in nodes ==>
                Ring(nodes + [this])
      ensures head.prev == this
    {
      ghost var n := |nodes|;
      assert Ring(nodes) && nodes != [] && nodes[0] == head ==>
        head.prev == nodes[n - 1] && nodes[Succ(n - 1, n)] == head;
      InsertBetween(head.prev, head, nodes, if n == 0 then 0 else n - 1);
      assert n != 0 ==> nodes[..n] + [this] + nodes[n..] == nodes + [this];
    }

    /** `remove`: link the neighbours to each other, then make this node a
        self-loop. In a ring of two or more nodes the rest stays a ring, in
        the same order. */
    method Remove(ghost nodes: seq<ListHead>, ghost i: nat)
      modifies this, prev, next
      ensures next == this && prev == this
      ensures old(prev) != this ==> old(prev).next == old(next)
      ensures old(next) != this ==> old(next).prev == old(prev)
      ensures old(Ring(nodes)) && i < |nodes| && nodes[i] == this && |nodes| >= 2 ==>
                Ring(nodes[..i] + nodes[i + 1..])
    {
      ghost var wasRing := Ring(nodes);
      prev.next := next;
      next.prev := prev;
      next := this;
      prev := this;
      if wasRing && i < |nodes| && nodes[i] == this && |nodes| >= 2 {
        UnlinkIsRing(nodes, i);
      }
    }

    /** `empty`: the head links to itself. */
    function Empty(): (b: bool)
      reads this
    {
      next == this
    }
  }

  /** Following `next` from `head` until it comes back: the nodes after the
      head, in ring order. */
  method Traverse(head: ListHead, ghost nodes: seq<ListHead>) returns (order: seq<ListHead>)
    requires Ring(nodes) && nodes[0] == head
    ensures order == nodes[1..]
  {
    var n := |nodes|;
    order := [];
    var pos := head.next;
    ghost var idx := Succ(0, n);
    while pos != head
      invariant 0 <= idx < n
      invariant pos == nodes[idx]
      invariant order == nodes[1..if idx == 0 then n else idx]
      invariant idx == 0 ==> order == nodes[1..]
      decreases if idx == 0 then 0 else n - idx
    {
      order := order + [pos];
      pos := pos.next;
      idx := Succ(idx, n);
    }
  }

  /** The nodes form one ring in this order: distinct, each `next` is the
      following node and each `prev` the preceding one, cyclically. */
  ghost predicate Ring(nodes: seq<ListHead>)
    reads set n | n in nodes
  {
    |nodes| >= 1 &&
    Distinct(nodes) &&
    (forall i :: 0 <= i < |nodes| ==>
       nodes[i].next == nodes[Succ(i, |nodes|)] && nodes[i].prev == nodes[Pred(i, |nodes|)])
  }

  /** The head of a ring is empty exactly when the ring holds only the head. */
  lemma EmptyIffAlone(nodes: seq<ListHead>)
    requires Ring(nodes)
    ensures nodes[0].Empty() <==> |nodes| == 1
  {
    if |nodes| >= 2 {
      assert nodes[0].next == nodes[1];
    }
  }

  ghost predicate Distinct(nodes: seq<ListHead>)
  {
    forall i, j :: 0 <= i < j < |nodes| ==> nodes[i] != nodes[j]
  }

  /** Where each node ends up once `x` is spliced in after position `k`. */
  lemma SpliceAt(nodes: seq<ListHead>, k: nat, x: ListHead)
    requires k < |nodes|
    ensures var m := nodes[..k + 1] + [x] + nodes[k + 1..];
            |m| == |nodes| + 1 &&
            forall j | 0 <= j < |m| :: m[j] == if j <= k then nodes[j] else if j == k + 1 then x else nodes[j - 1]
  {
  }

  /** Splicing in a node from outside keeps the nodes distinct. */
  lemma SpliceDistinct(nodes: seq<ListHead>, k: nat, x: ListHead)
    requires k < |nodes| && x !in nodes && Distinct(nodes)
    ensures Distinct(nodes[..k + 1] + [x] + nodes[k + 1..])
  {
    var m := nodes[..k + 1] + [x] + nodes[k + 1..];
    SpliceAt(nodes, k, x);
    forall i, j | 0 <= i < j < |m|
      ensures m[i] != m[j]
    {
      if j != k + 1 && i != k + 1 {
        var i' := if i <= k then i else i - 1;
        var j' := if j <= k then j else j - 1;
        assert m[i] == nodes[i'] && m[j] == nodes[j'];
      }
    }
  }

  /** The link facts left after `insert_between` at position `k` hold the
      spliced sequence together at position `j`. */
  lemma SpliceLink(nodes: seq<ListHead>, k: nat, x: ListHead, j: nat, o: nat)
    requires k < |nodes| && j <= |nodes| && o < |nodes|
    requires o == if j <= k then j else j - 1
    requires o != k ==> nodes[o].next == nodes[Succ(o, |nodes|)]
    requires o != Succ(k, |nodes|) ==> nodes[o].prev == nodes[Pred(o, |nodes|)]
    requires nodes[k].next == x && nodes[Succ(k, |nodes|)].prev == x
    requires x.next == nodes[Succ(k, |nodes|)] && x.prev == nodes[k]
    ensures var m := nodes[..k + 1] + [x] + nodes[k + 1..];
            m[j].next == m[Succ(j, |m|)] && m[j].prev == m[Pred(j, |m|)]
  {
    var n := |nodes|;
    var m := nodes[..k + 1] + [x] + nodes[k + 1..];
    SpliceAt(nodes, k, x);
    if j <= k {
      assert m[j] == nodes[j];
      if j < k {
        assert m[Succ(j, n + 1)] == nodes[Succ(j, n)];
      }
      if j == 0 && k + 1 < n {
        assert m[Pred(j, n + 1)] == nodes[Pred(j, n)];
      } else if j > 0 {
        assert m[Pred(j, n + 1)] == nodes[Pred(j, n)];
      }
    } else if j == k + 1 {
      assert m[Succ(j, n + 1)] == nodes[Succ(k, n)];
    } else {
      assert m[j] == nodes[j - 1];
      assert m[Succ(j, n + 1)] == nodes[Succ(j - 1, n)];
      if j > k + 2 {
        assert m[Pred(j, n + 1)] == nodes[Pred(j - 1, n)];
      }
    }
  }

  /** The link facts left after `insert_between` at position `k` make the
      spliced sequence a ring. */
  lemma SpliceIsRing(nodes: seq<ListHead>, k: nat, x: ListHead)
    requires k < |nodes| && x !in nodes && Distinct(nodes)
    requires forall i :: 0 <= i < |nodes| && i != k ==> nodes[i].next == nodes[Succ(i, |nodes|)]
    requires forall i :: 0 <= i < |nodes| && i != Succ(k, |nodes|) ==> nodes[i].prev == nodes[Pred(i, |nodes|)]
    requires nodes[k].next == x && nodes[Succ(k, |nodes|)].prev == x
    requires x.next == nodes[Succ(k, |nodes|)] && x.prev == nodes[k]
    ensures Ring(nodes[..k + 1] + [x] + nodes[k + 1..])
  {
    var m := nodes[..k + 1] + [x] + nodes[k + 1..];
    SpliceDistinct(nodes, k, x);
    forall j | 0 <= j < |m|
      ensures m[j].next == m[Succ(j, |m|)] && m[j].prev == m[Pred(j, |m|)]
    {
      var o := if j <= k then j else j - 1;
      SpliceLink(nodes, k, x, j, o);
    }
  }

  /** Where each node ends up once position `i` is taken out. */
  lemma UnlinkAt(nodes: seq<ListHead>, i: nat)
    requires i < |nodes|
    ensures var m := nodes[..i] + nodes[i + 1..];
            |m| == |nodes| - 1 && forall j | 0 <= j < |m| :: m[j] == if j < i then nodes[j] else nodes[j + 1]
  {
  }

  /** Taking a node out keeps the rest distinct. */
  lemma UnlinkDistinct(nodes: seq<ListHead>, i: nat)
    requires i < |nodes| && Distinct(nodes)
    ensures Distinct(nodes[..i] + nodes[i + 1..])
  {
    var m := nodes[..i] + nodes[i + 1..];
    UnlinkAt(nodes, i);
    forall a, b | 0 <= a < b < |m|
      ensures m[a] != m[b]
    {
      var a' := if a < i then a else a + 1;
      var b' := if b < i then b else b + 1;
      assert m[a] == nodes[a'] && m[b] == nodes[b'];
    }
  }

  /** The link facts left after `remove` of position `i` make the remaining
      sequence a ring. */
  lemma UnlinkIsRing(nodes: seq<ListHead>, i: nat)
    requires 2 <= |nodes| && i < |nodes| && Distinct(nodes)
    requires forall j :: 0 <= j < |nodes| && j != i && j != Pred(i, |nodes|) ==>
               nodes[j].next == nodes[Succ(j, |nodes|)]
    requires forall j :: 0 <= j < |nodes| && j != i && j != Succ(i, |nodes|) ==>
               nodes[j].prev == nodes[Pred(j, |nodes|)]
    requires nodes[Pred(i, |nodes|)].next == nodes[Succ(i, |nodes|)]
    requires nodes[Succ(i, |nodes|)].prev == nodes[Pred(i, |nodes|)]
    ensures Ring(nodes[..i] + nodes[i + 1..])
  {
    var n := |nodes|;
    var m := nodes[..i] + nodes[i + 1..];
    UnlinkAt(nodes, i);
    UnlinkDistinct(nodes, i);
    forall j | 0 <= j < |m|
      ensures m[j].next == m[Succ(j, |m|)] && m[j].prev == m[Pred(j, |m|)]
    {
      var o := if j < i then j else j + 1;
      assert m[j] == nodes[o];
    }
  }

  /** A fresh head is empty. */
  method EmptyInitially() returns (head: ListHead)
    ensures head.Empty()
  {
    head := new ListHead();
  }

  /** A head with two items, each added with `add`: the later one first. */
  method TwoAdded() returns (head: ListHead, a: ListHead, b: ListHead)
    ensures fresh(head) && fresh(a) && fresh(b)
    ensures Ring([head, b, a])
  {
    head := new ListHead();
    a := new ListHead();
    b := new ListHead();
    assert Ring([head]);
    a.Add(head, [head]);
    assert Ring([head, a]);
    b.Add(head, [head, a]);
  }

  /** A head with two items, each added with `add_tail`: the earlier one
      first. */
  method TwoAddedAtTail() returns (head: ListHead, a: ListHead, b: ListHead)
    ensures fresh(head) && fresh(a) && fresh(b)
    ensures Ring([head, a, b])
  {
    head := new ListHead();
    a := new ListHead();
    b := new ListHead();
    assert Ring([head]);
    a.AddTail(head, [head]);
    assert Ring([head, a]);
    b.AddTail(head, [head, a]);
  }

  /** `add` three times gives stack order after the head. */
  method AddGivesStackOrder() returns (head: ListHead, a: ListHead, b: ListHead, c: ListHead, order: seq<ListHead>)
    ensures order == [c, b, a] && head.prev == a
  {
    head, a, b := TwoAdded();
    c := new ListHead();
    assert head.next == b;
    c.Add(head, [head, b, a]);
    assert [head, c] + [head, b, a][1..] == [head, c, b, a];
    order := Traverse(head, [head, c, b, a]);
  }

  /** `add_tail` three times gives queue order after the head. */
  method AddTailGivesQueueOrder() returns (head: ListHead, a: ListHead, b: ListHead, c: ListHead, order: seq<ListHead>)
    ensures order == [a, b, c] && head.prev == c
  {
    head, a, b := TwoAddedAtTail();
    c := new ListHead();
    assert [head, a, b][0] == head && head.prev == [head, a, b][Pred(0, 3)] && head.prev == b;
    c.AddTail(head, [head, a, b]);
    order := Traverse(head, [head, a, b, c]);
  }

  /** Removing one of two items leaves the other alone with the head;
      removing it too leaves the head empty. */
  method RemoveLeavesNeighbour() returns (head: ListHead, a: ListHead, b: ListHead, next: ListHead, prev: ListHead, emptyBetween: bool, emptyAfter: bool)
    ensures next == b && prev == b && !emptyBetween && emptyAfter
  {
    head, a, b := TwoAdded();
    ghost var nodes := [head, b, a];
    assert nodes[2] == a && a.prev == nodes[Pred(2, 3)] && a.next == nodes[Succ(2, 3)];
    a.Remove([head, b, a], 2);
    assert [head, b, a][..2] + [head, b, a][3..] == [head, b];
    assert Ring([head, b]);
    emptyBetween, next, prev := head.Empty(), head.next, head.prev;
    assert b.prev == head && b.next == head;
    b.Remove([head, b], 1);
    emptyAfter := head.Empty();
  }
}
