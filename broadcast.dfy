/** The broadcast hub: a registry of subscribers, each with a private FIFO
    queue and a one-way `active` latch. Every public operation is one atomic
    step (the registry mutex and the atomic flag are not modelled), and the
    per-subscriber concurrent queue is a sequence. */
module Broadcast {
  import opened Wrappers

  class Subscriber<T> {
    /** The subscriber's inbound queue, oldest message first. */
    var queue: seq<T>
    /** Cleared by `unsubscribe`; nothing sets it again. */
    var active: bool
    /** Whether some owning handle still exists, i.e. whether the registry's
        weak reference can still be locked. */
    var alive: bool

    constructor ()
      ensures queue == [] && active && alive
    {
      queue, active, alive := [], true, true;
    }

    /** `receive`: non-blocking pop of the oldest message. */
    method Receive() returns (item: Option<T>)
      modifies this`queue
      ensures old(queue) == [] ==> item == None && queue == []
      ensures old(queue) != [] ==> item == Some(old(queue)[0]) && queue == old(queue)[1..]
    {
      if queue == [] {
        return None;
      }
      item := Some(queue[0]);
      queue := queue[1..];
    }

    /** A consumer loop that calls `receive` until it reports no data. */
    method Drain() returns (items: seq<T>)
      modifies this`queue
      ensures items == old(queue) && queue == []
    {
      items := [];
      var next := Receive();
      while next.Some?
        invariant items + (if next.Some? then [next.value] else []) + queue == old(queue)
        invariant next == None ==> queue == []
        decreases |queue| + (if next.Some? then 1 else 0)
      {
        items := items + [next.value];
        next := Receive();
      }
    }

    /** `is_active`: the latch `unsubscribe` clears. While a handle is
        held it says whether the next `broadcast` delivers here. */
    function IsActive(): (r: bool)
      reads this
      ensures alive ==> (r <==> Keeps(this))
      ensures !r ==> !Keeps(this)
    {
      active
    }

    /** The caller drops its last owning handle: the registry's weak
        reference expires. */
    method DropHandles()
      modifies this`alive
      ensures !alive
    {
      alive := false;
    }
  }

  /** Whether `broadcast` keeps a registry entry and delivers to it. */
  ghost predicate Keeps<T>(s: Subscriber<T>)
    reads s
  {
    s.alive && s.active
  }

  /** `Keeps` for every registry entry, in registry order. */
  ghost function Flags<T>(subs: seq<Subscriber<T>>): (r: seq<bool>)
    reads set s | s in subs
    ensures |r| == |subs|
    ensures forall j :: 0 <= j < |subs| ==> r[j] == Keeps(subs[j])
  {
    if subs == [] then [] else Flags(subs[..|subs| - 1]) + [Keeps(subs[|subs| - 1])]
  }

  /** The entries whose flag is set, in their original order. */
  function Filter<X>(xs: seq<X>, keep: seq<bool>): (r: seq<X>)
    requires |keep| == |xs|
    ensures |r| <= |xs|
  {
    if xs == [] then []
    else if keep[|xs| - 1] then Filter(xs[..|xs| - 1], keep[..|xs| - 1]) + [xs[|xs| - 1]]
    else Filter(xs[..|xs| - 1], keep[..|xs| - 1])
  }

  ghost predicate Distinct<T>(subs: seq<Subscriber<T>>)
  {
    forall i, j :: 0 <= i < j < |subs| ==> subs[i] != subs[j]
  }

  class Broadcaster<T> {
    /** The registry of weak references, in subscription order. */
    var subscribers: seq<Subscriber<T>>

    /** Every registry entry was appended once by `subscribe`. */
    ghost predicate Valid()
      reads this
    {
      Distinct(subscribers)
    }

    constructor ()
      ensures Valid() && subscribers == []
    {
      subscribers := [];
    }

    /** `subscribe`: a fresh active subscriber with an empty queue, appended
        at the end of the registry. */
    method Subscribe() returns (sub: Subscriber<T>)
      requires Valid()
      modifies this
      ensures Valid()
      ensures fresh(sub) && sub.queue == [] && sub.active && sub.alive
      ensures subscribers == old(subscribers) + [sub]
    {
      sub := new Subscriber();
      subscribers := subscribers + [sub];
    }

    /** `unsubscribe`: clears the latch and nothing else. */
    method Unsubscribe(sub: Subscriber<T>)
      modifies sub`active
      ensures !sub.active
    {
      sub.active := false;
    }

    /** `broadcast`: one pass over the registry that appends `item` to the
        queue of every alive, active subscriber and erases every other entry.
        The kept entries are collected in order and become the registry. */
    method Broadcast(item: T)
      requires Valid()
      modifies this, subscribers
      ensures Valid()
      ensures subscribers == Filter(old(subscribers), old(Flags(subscribers)))
      ensures forall s :: s in old(subscribers) ==>
                s.active == old(s.active) && s.alive == old(s.alive)
      ensures forall s :: s in old(subscribers) && old(Keeps(s)) ==> s.queue == old(s.queue) + [item]
      ensures forall s :: s in old(subscribers) && !old(Keeps(s)) ==> s.queue == old(s.queue)
      ensures forall s :: s in subscribers <==> s in old(subscribers) && old(Keeps(s))
    {
      var subs := subscribers;
      ghost var flags := Flags(subs);
      var kept := Deliver(subs, flags, item);
      FilterDistinct(subs, flags);
      FilterMembers(subs, flags);
      subscribers := kept;
    }

    /** The loop of `broadcast`: entry by entry, a kept subscriber gets
        `item` queued and is collected; the others are skipped. */
    method Deliver(subs: seq<Subscriber<T>>, ghost flags: seq<bool>, item: T) returns (kept: seq<Subscriber<T>>)
      requires Distinct(subs) && |flags| == |subs|
      requires forall j :: 0 <= j < |subs| ==> flags[j] == (subs[j].alive && subs[j].active)
      modifies set s | s in subs
      ensures kept == Filter(subs, flags)
      ensures forall j :: 0 <= j < |subs| ==>
                subs[j].active == old(subs[j].active) && subs[j].alive == old(subs[j].alive)
      ensures forall j :: 0 <= j < |subs| && flags[j] ==> subs[j].queue == old(subs[j].queue) + [item]
      ensures forall j :: 0 <= j < |subs| && !flags[j] ==> subs[j].queue == old(subs[j].queue)
    {
      kept := [];
      for k := 0 to |subs|
        invariant kept == Filter(subs[..k], flags[..k])
        invariant forall j :: 0 <= j < |subs| ==>
                    subs[j].active == old(subs[j].active) && subs[j].alive == old(subs[j].alive)
        invariant forall j :: 0 <= j < k && flags[j] ==> subs[j].queue == old(subs[j].queue) + [item]
        invariant forall j :: 0 <= j < k && !flags[j] ==> subs[j].queue == old(subs[j].queue)
        invariant forall j :: k <= j < |subs| ==> subs[j].queue == old(subs[j].queue)
      {
        var sub := subs[k];
        FilterStep(subs, flags, k);
        if sub.alive && sub.active {
          sub.queue := sub.queue + [item];
          kept := kept + [sub];
        }
      }
      assert subs[..|subs|] == subs;
      assert flags[..|subs|] == flags;
    }
  }

  /** One more entry considered: it is kept exactly when its flag is set. */
  lemma FilterStep<X>(xs: seq<X>, keep: seq<bool>, k: nat)
    requires |keep| == |xs| && k < |xs|
    ensures Filter(xs[..k + 1], keep[..k + 1]) ==
            if keep[k] then Filter(xs[..k], keep[..k]) + [xs[k]] else Filter(xs[..k], keep[..k])
  {
    assert xs[..k + 1] == xs[..k] + [xs[k]];
    assert keep[..k + 1] == keep[..k] + [keep[k]];
    FilterSnoc(xs[..k], keep[..k], xs[k], keep[k]);
  }

  lemma FilterSnoc<X>(xs: seq<X>, keep: seq<bool>, x: X, b: bool)
    requires |keep| == |xs|
    ensures Filter(xs + [x], keep + [b]) == if b then Filter(xs, keep) + [x] else Filter(xs, keep)
  {
    assert (xs + [x])[..|xs|] == xs;
    assert (keep + [b])[..|xs|] == keep;
  }

  /** An entry survives the filter exactly when its flag is set. */
  lemma FilterMembers<X>(xs: seq<X>, keep: seq<bool>)
    requires |keep| == |xs|
    ensures forall x :: x in Filter(xs, keep) ==> exists j :: 0 <= j < |xs| && keep[j] && xs[j] == x
    ensures forall j :: 0 <= j < |xs| && keep[j] ==> xs[j] in Filter(xs, keep)
  {
    FilterSound(xs, keep);
    FilterComplete(xs, keep);
  }

  /** Whatever survives the filter is an entry whose flag is set. */
  lemma {:induction false} FilterSound<X>(xs: seq<X>, keep: seq<bool>)
    requires |keep| == |xs|
    ensures forall x :: x in Filter(xs, keep) ==> exists j :: 0 <= j < |xs| && keep[j] && xs[j] == x
  {
    if xs != [] {
      var n := |xs| - 1;
      var xs', keep' := xs[..n], keep[..n];
      FilterSound(xs', keep');
      assert Filter(xs, keep) == if keep[n] then Filter(xs', keep') + [xs[n]] else Filter(xs', keep');
      forall x | x in Filter(xs, keep)
        ensures exists j :: 0 <= j < |xs| && keep[j] && xs[j] == x
      {
        if x in Filter(xs', keep') {
          var j :| 0 <= j < |xs'| && keep'[j] && xs'[j] == x;
          assert keep[j] && xs[j] == x;
        } else {
          assert keep[n] && xs[n] == x;
        }
      }
    }
  }

  /** Every entry whose flag is set survives the filter. */
  lemma {:induction false} FilterComplete<X>(xs: seq<X>, keep: seq<bool>)
    requires |keep| == |xs|
    ensures forall j :: 0 <= j < |xs| && keep[j] ==> xs[j] in Filter(xs, keep)
  {
    if xs != [] {
      var n := |xs| - 1;
      var xs', keep' := xs[..n], keep[..n];
      FilterComplete(xs', keep');
      assert Filter(xs, keep) == if keep[n] then Filter(xs', keep') + [xs[n]] else Filter(xs', keep');
      forall j | 0 <= j < |xs| && keep[j]
        ensures xs[j] in Filter(xs, keep)
      {
        if j < n {
          assert keep'[j] && xs'[j] == xs[j];
        }
      }
    }
  }

  lemma {:induction false} FilterDistinct<T>(subs: seq<Subscriber<T>>, keep: seq<bool>)
    requires |keep| == |subs| && Distinct(subs)
    ensures Distinct(Filter(subs, keep))
  {
    if subs != [] {
      var n := |subs| - 1;
      FilterDistinct(subs[..n], keep[..n]);
      if keep[n] {
        FilterMembers(subs[..n], keep[..n]);
        assert subs[n] !in Filter(subs[..n], keep[..n]);
      }
    }
  }

  /** When every entry is alive and active, `broadcast` erases none. */
  lemma {:induction false} AllKept<T>(subs: seq<Subscriber<T>>)
    requires forall s :: s in subs ==> Keeps(s)
    ensures Filter(subs, Flags(subs)) == subs
  {
    if subs != [] {
      var n := |subs| - 1;
      assert Flags(subs)[..n] == Flags(subs[..n]);
      AllKept(subs[..n]);
      assert subs[..n] + [subs[n]] == subs;
    }
  }

  /** When no entry is alive and active, `broadcast` erases them all. */
  lemma {:induction false} NoneKept<T>(subs: seq<Subscriber<T>>)
    requires forall s :: s in subs ==> !Keeps(s)
    ensures Filter(subs, Flags(subs)) == []
  {
    if subs != [] {
      var n := |subs| - 1;
      assert Flags(subs)[..n] == Flags(subs[..n]);
      NoneKept(subs[..n]);
    }
  }

  /** One broadcast to a registry of two live, active subscribers. */
  method BroadcastToBoth(hub: Broadcaster<int>, s1: Subscriber<int>, s2: Subscriber<int>, item: int)
    requires hub.Valid() && hub.subscribers == [s1, s2] && Keeps(s1) && Keeps(s2)
    modifies hub, s1, s2
    ensures hub.Valid() && hub.subscribers == [s1, s2] && Keeps(s1) && Keeps(s2)
    ensures s1.queue == old(s1.queue) + [item] && s2.queue == old(s2.queue) + [item]
  {
    AllKept(hub.subscribers);
    hub.Broadcast(item);
  }

  /** First half of the two-subscriber scenario: S1 and S2 subscribe, then
      1 and 2 are broadcast. */
  method SubscribeTwiceBroadcastTwice() returns (hub: Broadcaster<int>, s1: Subscriber<int>, s2: Subscriber<int>)
    ensures fresh(hub) && fresh(s1) && fresh(s2) && s1 != s2
    ensures hub.Valid() && hub.subscribers == [s1, s2]
    ensures Keeps(s1) && Keeps(s2) && s1.queue == [1, 2] && s2.queue == [1, 2]
  {
    hub := new Broadcaster<int>();
    s1 := hub.Subscribe();
    s2 := hub.Subscribe();
    assert hub.subscribers == [s1, s2];
    BroadcastToBoth(hub, s1, s2, 1);
    BroadcastToBoth(hub, s1, s2, 2);
    assert s1.queue == [1] + [2] == [1, 2];
    assert s2.queue == [1] + [2] == [1, 2];
  }

  /** The two-subscriber scenario: S1 and S2 subscribe, 1 and 2 are
      broadcast, S1 unsubscribes, 3 is broadcast; S1 then drains [1, 2] and
      S2 drains [1, 2, 3]. */
  method UnsubscribeScenario() returns (first: seq<int>, second: seq<int>)
    ensures first == [1, 2] && second == [1, 2, 3]
  {
    var hub, s1, s2 := SubscribeTwiceBroadcastTwice();
    hub.Unsubscribe(s1);
    assert hub.Valid() && !Keeps(s1) && Keeps(s2);
    hub.Broadcast(3);
    assert s2.queue == [1, 2] + [3] == [1, 2, 3];
    first := s1.Drain();
    second := s2.Drain();
  }

  /** A subscriber whose handles were all dropped is erased by the next
      broadcast and gets nothing. */
  method DroppedHandleScenario() returns (registry: nat, pending: nat)
    ensures registry == 0 && pending == 0
  {
    var hub := new Broadcaster<int>();
    var s1 := hub.Subscribe();
    s1.DropHandles();
    BroadcastToDropped(hub, s1, 1);
    registry, pending := |hub.subscribers|, |s1.queue|;
  }

  /** One broadcast to a registry whose only entry has lost its handles. */
  method BroadcastToDropped(hub: Broadcaster<int>, s1: Subscriber<int>, item: int)
    requires hub.Valid() && hub.subscribers == [s1] && !s1.alive
    modifies hub, s1
    ensures hub.subscribers == [] && s1.queue == old(s1.queue)
  {
    NoneKept(hub.subscribers);
    hub.Broadcast(item);
  }
}
