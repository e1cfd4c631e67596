/** Kahn's topological sort, shared by the two graph builders that use it.
    Nodes are the positions 0 .. n-1; `deps[v]` lists, in order and with
    repetition, the nodes `v` depends on. The builder turns that into the
    adjacency lists (who depends on `u`) and the in-degree counts; the sort
    pops a FIFO queue seeded with `start` and releases a node when its last
    pending dependency has been emitted. */
module TopoSort {

  /** Number of occurrences of `x` in `s`. */
  function Occ(x: nat, s: seq<nat>): (c: nat)
    ensures c <= |s|
    ensures s == [] ==> c == 0
    ensures c > 0 <==> x in s
  {
    if |s| == 0 then 0
    else Occ(x, s[..|s| - 1]) + (if s[|s| - 1] == x then 1 else 0)
  }

  /** Number of entries of `s` that are not in `done`. */
  function Pending(s: seq<nat>, done: set<nat>): (c: nat)
    ensures c <= |s|
    ensures c == 0 <==> forall x | x in s :: x in done
  {
    if |s| == 0 then 0
    else
      var p := Pending(s[..|s| - 1], done);
      assert forall x | x in s :: x in s[..|s| - 1] || x == s[|s| - 1];
      p + (if s[|s| - 1] in done then 0 else 1)
  }

  /** The set of entries of `s`. */
  ghost function Elems(s: seq<nat>): (r: set<nat>)
    ensures forall x :: x in r <==> x in s
  {
    if |s| == 0 then {}
    else
      var t := s[..|s| - 1];
      assert forall x | x in s :: x in t || x == s[|s| - 1];
      assert s == t + [s[|s| - 1]];
      Elems(t) + {s[|s| - 1]}
  }

  predicate Distinct(s: seq<nat>)
  {
    forall i, j | 0 <= i < j < |s| :: s[i] != s[j]
  }

  /** Every entry of `s` is a node below `n`. */
  predicate Nodes(s: seq<nat>, n: nat)
  {
    forall i | 0 <= i < |s| :: s[i] < n
  }

  /** Every dependency named in `deps` is a node of the graph. */
  predicate Closed(deps: seq<seq<nat>>)
  {
    forall v | 0 <= v < |deps| :: Nodes(deps[v], |deps|)
  }

  /** `adj[u]` lists every `v` exactly as often as `deps[v]` lists `u`,
      and `indeg[v]` is the length of `deps[v]`. */
  predicate Built(deps: seq<seq<nat>>, adj: seq<seq<nat>>, indeg: seq<int>)
  {
    |adj| == |deps| && |indeg| == |deps| &&
    (forall u | 0 <= u < |adj| :: Nodes(adj[u], |deps|)) &&
    (forall u, v | 0 <= u < |adj| && 0 <= v < |deps| :: Occ(v, adj[u]) == Occ(u, deps[v])) &&
    (forall v | 0 <= v < |deps| :: indeg[v] == |deps[v]|)
  }

  /** Each emitted node comes after every node it depends on. */
  predicate Ordered(deps: seq<seq<nat>>, s: seq<nat>)
  {
    forall i | 0 <= i < |s| :: s[i] < |deps| && forall x | x in deps[s[i]] :: x in s[..i]
  }

  /** `sorted` is closed: a node is in it exactly when it is a start node,
      or it has at least one dependency and all of them are in it. */
  ghost predicate Released(deps: seq<seq<nat>>, start: seq<nat>, sorted: seq<nat>)
  {
    forall v | 0 <= v < |deps| ::
      v in sorted <==> v in start || (deps[v] != [] && Pending(deps[v], Elems(sorted)) == 0)
  }

  // -- small facts about counting -----------------------------------------

  lemma OccAppend(x: nat, s: seq<nat>, y: nat)
    ensures Occ(x, s + [y]) == Occ(x, s) + (if y == x then 1 else 0)
  {
    assert (s + [y])[..|s|] == s;
  }

  lemma {:induction false} OccPrefix(x: nat, s: seq<nat>, j: nat)
    requires j <= |s|
    ensures Occ(x, s[..j]) <= Occ(x, s)
    decreases |s|
  {
    if j < |s| {
      assert s[..|s| - 1][..j] == s[..j];
      OccPrefix(x, s[..|s| - 1], j);
    } else {
      assert s[..j] == s;
    }
  }

  /** Emitting `u` removes its occurrences from what is pending. */
  lemma {:induction false} PendingNone(s: seq<nat>)
    ensures Pending(s, {}) == |s|
  {
    if |s| > 0 {
      PendingNone(s[..|s| - 1]);
    }
  }

  lemma {:induction false} PendingAdd(s: seq<nat>, done: set<nat>, u: nat)
    requires u !in done
    ensures Pending(s, done + {u}) + Occ(u, s) == Pending(s, done)
  {
    if |s| > 0 {
      PendingAdd(s[..|s| - 1], done, u);
    }
  }

  lemma DistinctAppend(s: seq<nat>, x: nat)
    requires Distinct(s) && x !in s
    ensures Distinct(s + [x])
  {
    forall i, j | 0 <= i < j < |s| + 1
      ensures (s + [x])[i] != (s + [x])[j]
    {
      if j == |s| {
        assert s[i] in s;
      }
    }
  }

  /** The nodes below `n`. */
  ghost function Below(n: nat): (r: set<nat>)
    ensures forall x: nat :: x in r <==> x < n
  {
    if n == 0 then {} else Below(n - 1) + {n - 1}
  }

  lemma {:induction false} BelowSize(n: nat)
    ensures |Below(n)| == n
  {
    if n > 0 {
      BelowSize(n - 1);
    }
  }

  lemma {:induction false} DistinctSize(s: seq<nat>)
    requires Distinct(s)
    ensures |Elems(s)| == |s|
  {
    if |s| > 0 {
      var t := s[..|s| - 1];
      assert Distinct(t) by {
        forall i, j | 0 <= i < j < |t| ensures t[i] != t[j] {
          assert t[i] == s[i] && t[j] == s[j];
        }
      }
      assert s[|s| - 1] !in t by {
        forall i | 0 <= i < |t| ensures t[i] != s[|s| - 1] {
          assert s[i] != s[|s| - 1];
        }
      }
      DistinctSize(t);
    }
  }

  lemma SubsetSize(a: set<nat>, b: set<nat>)
    requires a <= b
    ensures |a| <= |b|
    ensures |a| == |b| ==> a == b
  {
    var c := b - a;
    assert b == a + c;
    assert a * c == {};
    if |a| == |b| {
      assert |c| == 0;
    }
  }

  /** A repetition-free list of nodes below `n` has at most `n` entries,
      and has all of them when it has exactly `n`. */
  lemma Pigeonhole(s: seq<nat>, n: nat)
    requires Distinct(s) && Nodes(s, n)
    ensures |s| <= n
    ensures |s| == n ==> forall v: nat | v < n :: v in s
  {
    var xs := Elems(s);
    DistinctSize(s);
    BelowSize(n);
    forall x | x in xs ensures x in Below(n) {
      var i :| 0 <= i < |s| && s[i] == x;
    }
    SubsetSize(xs, Below(n));
    if |s| == n {
      forall v: nat | v < n ensures v in s {
        assert v in Below(n);
      }
    }
  }

  // -- building --------------------------------------------------------------

  /** The adjacency lists and in-degrees of `deps`: the loop over every node
      and each of its dependencies, appending the node to its dependency's
      list. */
  method BuildGraph(deps: seq<seq<nat>>) returns (adj: seq<seq<nat>>, indeg: seq<int>)
    requires Closed(deps)
    ensures Built(deps, adj, indeg)
  {
    var n := |deps|;
    adj := seq(n, _ => []);
    indeg := seq(n, _ => 0);
    var v := 0;
    forall u, w | 0 <= u < n ensures Nodes(adj[u], 0) && Occ(w, adj[u]) == 0 {
      assert adj[u] == [];
    }
    while v < n
      invariant v <= n && |adj| == n && |indeg| == n
      invariant forall u | 0 <= u < n :: Nodes(adj[u], v)
      invariant forall u, w | 0 <= u < n && 0 <= w < n ::
                  Occ(w, adj[u]) == if w < v then Occ(u, deps[w]) else 0
      invariant forall w | 0 <= w < n :: indeg[w] == if w < v then |deps[w]| else 0
    {
      ghost var before := adj;
      adj := AppendEverywhere(adj, deps[v], v);
      forall u | 0 <= u < n ensures Nodes(adj[u], v + 1) {
        forall i | 0 <= i < |adj[u]| ensures adj[u][i] < v + 1 {
          assert adj[u][i] in adj[u];
          if adj[u][i] != v {
            var k :| 0 <= k < |before[u]| && before[u][k] == adj[u][i];
          }
        }
      }
      indeg := indeg[v := |deps[v]|];
      v := v + 1;
    }
  }

  /** The inner loop of the builder: appends `v` to the list of each entry
      of `ds`, in order. */
  method AppendEverywhere(adj: seq<seq<nat>>, ds: seq<nat>, v: nat) returns (adj': seq<seq<nat>>)
    requires Nodes(ds, |adj|)
    ensures |adj'| == |adj|
    ensures forall u | 0 <= u < |adj| :: forall w | w in adj'[u] :: w in adj[u] || w == v
    ensures forall u, w | 0 <= u < |adj| :: Occ(w, adj'[u]) == Occ(w, adj[u]) + (if w == v then Occ(u, ds) else 0)
  {
    adj' := adj;
    var k := 0;
    forall u: nat ensures Occ(u, ds[..0]) == 0 {
      assert ds[..0] == [];
    }
    while k < |ds|
      invariant k <= |ds| && |adj'| == |adj|
      invariant forall u | 0 <= u < |adj| :: forall w | w in adj'[u] :: w in adj[u] || w == v
      invariant forall u, w | 0 <= u < |adj| ::
                  Occ(w, adj'[u]) == Occ(w, adj[u]) + (if w == v then Occ(u, ds[..k]) else 0)
    {
      var u := ds[k];
      assert ds[..k + 1] == ds[..k] + [u];
      forall u' ensures Occ(u', ds[..k + 1]) == Occ(u', ds[..k]) + (if u == u' then 1 else 0) {
        OccAppend(u', ds[..k], u);
      }
      var before := adj';
      adj' := adj'[u := adj'[u] + [v]];
      forall u', w | 0 <= u' < |adj|
        ensures Occ(w, adj'[u']) == Occ(w, before[u']) + (if u' == u && w == v then 1 else 0)
      {
        if u' == u {
          OccAppend(w, before[u'], v);
        }
      }
      forall u' | 0 <= u' < |adj| ensures forall w | w in adj'[u'] :: w in adj[u'] || w == v {
        if u' == u {
          assert forall w | w in adj'[u'] :: w in before[u'] || w == v;
        }
      }
      k := k + 1;
    }
    assert ds[..k] == ds;
  }

  // -- sorting ---------------------------------------------------------------

  /** The inner loop of the sort: decrements the in-degree of every entry of
      `s` and enqueues, in order, each one that reaches zero. */
  method Release(s: seq<nat>, indeg: seq<int>, queue: seq<nat>) returns (indeg': seq<int>, queue': seq<nat>)
    requires Nodes(s, |indeg|)
    requires forall v | 0 <= v < |indeg| :: Occ(v, s) <= indeg[v]
    ensures |indeg'| == |indeg|
    ensures forall v | 0 <= v < |indeg| :: indeg'[v] == indeg[v] - Occ(v, s)
    ensures |queue| <= |queue'| && queue'[..|queue|] == queue
    ensures Distinct(queue'[|queue|..])
    ensures forall v: nat :: v in queue'[|queue|..] <==> v < |indeg| && Occ(v, s) > 0 && indeg'[v] == 0
  {
    indeg' := indeg;
    queue' := queue;
    var j := 0;
    assert s[..0] == [];
    assert queue'[|queue|..] == [];
    while j < |s|
      invariant j <= |s| && |indeg'| == |indeg|
      invariant forall v | 0 <= v < |indeg| :: indeg'[v] == indeg[v] - Occ(v, s[..j])
      invariant |queue| <= |queue'| && queue'[..|queue|] == queue
      invariant Distinct(queue'[|queue|..])
      invariant forall v: nat :: v in queue'[|queue|..] <==> v < |indeg| && Occ(v, s[..j]) > 0 && indeg'[v] == 0
    {
      var w := s[j];
      assert s[..j + 1] == s[..j] + [w];
      forall v ensures Occ(v, s[..j + 1]) == Occ(v, s[..j]) + (if w == v then 1 else 0) {
        OccAppend(v, s[..j], w);
      }
      OccPrefix(w, s, j + 1);
      var added := queue'[|queue|..];
      indeg' := indeg'[w := indeg'[w] - 1];
      if indeg'[w] == 0 {
        assert w !in added;
        DistinctAppend(added, w);
        assert (queue' + [w])[|queue|..] == added + [w];
        queue' := queue' + [w];
      }
      j := j + 1;
    }
    assert s[..j] == s;
  }

  /** The in-degree of each node counts its dependencies not yet emitted. */
  ghost predicate Counts(deps: seq<seq<nat>>, indeg: seq<int>, sorted: seq<nat>)
  {
    |indeg| == |deps| &&
    forall v | 0 <= v < |deps| :: indeg[v] == Pending(deps[v], Elems(sorted))
  }

  /** A node has been seen exactly when it is a start node or its in-degree
      has been brought down to zero. */
  ghost predicate Reached(deps: seq<seq<nat>>, start: seq<nat>, indeg: seq<int>, visited: seq<nat>)
    requires |indeg| == |deps|
  {
    forall v | 0 <= v < |deps| :: v in visited <==> v in start || (deps[v] != [] && indeg[v] == 0)
  }

  /** Every queued node has all its dependencies emitted. */
  ghost predicate Waiting(deps: seq<seq<nat>>, sorted: seq<nat>, queue: seq<nat>)
  {
    forall i | 0 <= i < |queue| :: queue[i] < |deps| && forall x | x in deps[queue[i]] :: x in sorted
  }

  /** What the sort loop keeps. */
  ghost predicate SortState(deps: seq<seq<nat>>, start: seq<nat>, indeg: seq<int>,
                            sorted: seq<nat>, queue: seq<nat>)
  {
    Distinct(sorted + queue) && Nodes(sorted + queue, |deps|) &&
    Counts(deps, indeg, sorted) && Reached(deps, start, indeg, sorted + queue) &&
    Ordered(deps, sorted) && Waiting(deps, sorted, queue)
  }

  /** Kahn's loop over prepared adjacency lists and in-degrees. */
  method Kahn(ghost deps: seq<seq<nat>>, adj: seq<seq<nat>>, indeg: seq<int>, start: seq<nat>)
    returns (sorted: seq<nat>)
    requires Closed(deps) && Built(deps, adj, indeg)
    requires Distinct(start)
    requires forall i | 0 <= i < |start| :: start[i] < |deps| && deps[start[i]] == []
    ensures Distinct(sorted) && Nodes(sorted, |deps|)
    ensures Ordered(deps, sorted)
    ensures Released(deps, start, sorted)
  {
    var degree := indeg;
    var queue := start;
    sorted := [];
    forall v | 0 <= v < |deps| ensures degree[v] == Pending(deps[v], Elems(sorted)) {
      PendingNone(deps[v]);
    }
    assert sorted + queue == start;
    while |queue| > 0
      invariant SortState(deps, start, degree, sorted, queue)
      decreases |deps| - |sorted|
    {
      var u := queue[0];
      var rest := queue[1..];
      assert queue == [u] + rest;
      KahnReady(deps, adj, indeg, start, degree, sorted, u, rest);
      var degree', queue' := Release(adj[u], degree, rest);
      var added := queue'[|rest|..];
      assert queue' == rest + added;
      KahnStep(deps, adj, start, degree, degree', sorted, u, rest, added);
      sorted := sorted + [u];
      degree := degree';
      queue := queue';
    }
    assert sorted + queue == sorted;
  }

  /** The front of the queue is a fresh node whose emission can release
      its dependents: each in-degree covers the edges from it. */
  lemma KahnReady(deps: seq<seq<nat>>, adj: seq<seq<nat>>, indeg: seq<int>, start: seq<nat>,
                  degree: seq<int>, sorted: seq<nat>, u: nat, rest: seq<nat>)
    requires Built(deps, adj, indeg)
    requires SortState(deps, start, degree, sorted, [u] + rest)
    ensures |sorted| < |deps| && u < |deps| && u !in sorted
    ensures Nodes(adj[u], |degree|)
    ensures forall v | 0 <= v < |deps| ::
              Occ(v, adj[u]) <= degree[v] && Pending(deps[v], Elems(sorted) + {u}) == degree[v] - Occ(v, adj[u])
  {
    Pigeonhole(sorted + ([u] + rest), |deps|);
    FrontFresh(sorted, u, rest);
    assert (sorted + ([u] + rest))[|sorted|] == u;
    forall v | 0 <= v < |deps|
      ensures Occ(v, adj[u]) <= degree[v]
      ensures Pending(deps[v], Elems(sorted) + {u}) == degree[v] - Occ(v, adj[u])
    {
      PendingAdd(deps[v], Elems(sorted), u);
    }
  }

  /** Emitting the front node and queueing what it released keeps the
      loop's state. */
  lemma KahnStep(deps: seq<seq<nat>>, adj: seq<seq<nat>>, start: seq<nat>, degree: seq<int>, degree': seq<int>,
                 sorted: seq<nat>, u: nat, rest: seq<nat>, added: seq<nat>)
    requires |adj| == |deps| && forall a, v | 0 <= a < |adj| && 0 <= v < |deps| :: Occ(v, adj[a]) == Occ(a, deps[v])
    requires forall i | 0 <= i < |start| :: start[i] < |deps| && deps[start[i]] == []
    requires SortState(deps, start, degree, sorted, [u] + rest)
    requires u < |deps| && u !in sorted
    requires forall v | 0 <= v < |deps| ::
               Occ(v, adj[u]) <= degree[v] && Pending(deps[v], Elems(sorted) + {u}) == degree[v] - Occ(v, adj[u])
    requires |degree'| == |degree|
    requires forall v | 0 <= v < |degree| :: degree'[v] == degree[v] - Occ(v, adj[u])
    requires Distinct(added)
    requires forall v: nat :: v in added <==> v < |degree| && Occ(v, adj[u]) > 0 && degree'[v] == 0
    ensures SortState(deps, start, degree', sorted + [u], rest + added)
  {
    var queue := [u] + rest;
    assert Elems(sorted + [u]) == Elems(sorted) + {u};
    StepFresh(deps, adj, start, degree, degree', sorted + queue, u, added);
    StepDistinct(sorted + queue, added);
    StepReached(deps, adj, start, degree, degree', sorted + queue, u, added);
    StepWaiting(deps, adj[u], degree, degree', sorted, u, rest, added);
    StepOrdered(deps, sorted, u, rest);
    Regroup(sorted, u, rest, added);
  }

  lemma Regroup(sorted: seq<nat>, u: nat, rest: seq<nat>, added: seq<nat>)
    ensures (sorted + [u]) + (rest + added) == (sorted + ([u] + rest)) + added
  {
  }

  lemma FrontFresh(sorted: seq<nat>, u: nat, rest: seq<nat>)
    requires Distinct(sorted + ([u] + rest))
    ensures u !in sorted
  {
    var all := sorted + ([u] + rest);
    assert all[|sorted|] == u;
    forall i | 0 <= i < |sorted| ensures sorted[i] != u {
      assert all[i] == sorted[i];
    }
  }

  /** The nodes the release step enqueues were not seen before. */
  lemma StepFresh(deps: seq<seq<nat>>, adj: seq<seq<nat>>, start: seq<nat>,
                  degree: seq<int>, degree': seq<int>, visited: seq<nat>, u: nat, added: seq<nat>)
    requires |adj| == |deps| && |degree| == |deps| && |degree'| == |deps| && u < |deps|
    requires forall a, v | 0 <= a < |adj| && 0 <= v < |deps| :: Occ(v, adj[a]) == Occ(a, deps[v])
    requires Reached(deps, start, degree, visited)
    requires forall i | 0 <= i < |start| :: start[i] < |deps| && deps[start[i]] == []
    requires forall v | 0 <= v < |deps| :: degree'[v] == degree[v] - Occ(v, adj[u])
    requires forall v: nat :: v in added <==> v < |deps| && Occ(v, adj[u]) > 0 && degree'[v] == 0
    ensures forall v | v in added :: v !in visited && v < |deps|
  {
    forall v | v in added ensures v !in visited {
      assert Occ(u, deps[v]) > 0;
      assert deps[v] != [];
    }
  }

  lemma StepDistinct(visited: seq<nat>, added: seq<nat>)
    requires Distinct(visited) && Distinct(added)
    requires forall v | v in added :: v !in visited
    ensures Distinct(visited + added)
  {
    forall i, j | 0 <= i < j < |visited + added|
      ensures (visited + added)[i] != (visited + added)[j]
    {
      if j >= |visited| && i < |visited| {
        assert (visited + added)[j] == added[j - |visited|];
        assert added[j - |visited|] in added;
        assert visited[i] in visited;
      } else if j >= |visited| {
        assert (visited + added)[i] == added[i - |visited|];
        assert (visited + added)[j] == added[j - |visited|];
      } else {
        assert (visited + added)[i] == visited[i];
        assert (visited + added)[j] == visited[j];
      }
    }
  }

  /** A node is seen after the step exactly when it was seen before or the
      step brought its in-degree to zero. */
  lemma StepReached(deps: seq<seq<nat>>, adj: seq<seq<nat>>, start: seq<nat>,
                    degree: seq<int>, degree': seq<int>, visited: seq<nat>, u: nat, added: seq<nat>)
    requires |adj| == |deps| && |degree| == |deps| && |degree'| == |deps| && u < |deps|
    requires forall a, v | 0 <= a < |adj| && 0 <= v < |deps| :: Occ(v, adj[a]) == Occ(a, deps[v])
    requires Reached(deps, start, degree, visited)
    requires forall v | 0 <= v < |deps| :: Occ(v, adj[u]) <= degree[v]
    requires forall v | 0 <= v < |deps| :: degree'[v] == degree[v] - Occ(v, adj[u])
    requires forall v: nat :: v in added <==> v < |deps| && Occ(v, adj[u]) > 0 && degree'[v] == 0
    ensures Reached(deps, start, degree', visited + added)
  {
    forall v | 0 <= v < |deps|
      ensures v in visited + added <==> v in start || (deps[v] != [] && degree'[v] == 0)
    {
      if v in added {
        assert Occ(u, deps[v]) > 0;
      } else if deps[v] == [] {
        assert Occ(u, deps[v]) == 0;
      }
    }
  }

  /** After the step every queued node still has its dependencies emitted. */
  lemma StepWaiting(deps: seq<seq<nat>>, s: seq<nat>, degree: seq<int>, degree': seq<int>,
                    sorted: seq<nat>, u: nat, rest: seq<nat>, added: seq<nat>)
    requires |degree| == |deps| && |degree'| == |deps|
    requires Waiting(deps, sorted, [u] + rest)
    requires forall v | 0 <= v < |deps| ::
               Pending(deps[v], Elems(sorted) + {u}) == degree[v] - Occ(v, s)
    requires forall v | 0 <= v < |deps| :: degree'[v] == degree[v] - Occ(v, s)
    requires forall v: nat :: v in added <==> v < |deps| && Occ(v, s) > 0 && degree'[v] == 0
    requires Elems(sorted + [u]) == Elems(sorted) + {u}
    ensures Waiting(deps, sorted + [u], rest + added)
  {
    var q := rest + added;
    forall i | 0 <= i < |q| ensures q[i] < |deps| && forall x | x in deps[q[i]] :: x in sorted + [u] {
      if i < |rest| {
        assert q[i] == ([u] + rest)[i + 1];
      } else {
        assert q[i] == added[i - |rest|];
        assert added[i - |rest|] in added;
        assert Pending(deps[q[i]], Elems(sorted + [u])) == 0;
      }
    }
  }

  /** Emitting the queue's front keeps the emitted list ordered. */
  lemma StepOrdered(deps: seq<seq<nat>>, sorted: seq<nat>, u: nat, rest: seq<nat>)
    requires Ordered(deps, sorted)
    requires Waiting(deps, sorted, [u] + rest)
    ensures Ordered(deps, sorted + [u])
  {
    var s := sorted + [u];
    assert ([u] + rest)[0] == u;
    forall i | 0 <= i < |s| ensures s[i] < |deps| && forall x | x in deps[s[i]] :: x in s[..i] {
      if i == |sorted| {
        assert s[..i] == sorted;
      } else {
        assert s[..i] == sorted[..i];
        assert s[i] == sorted[i];
      }
    }
  }

  // -- what the ordering gives -----------------------------------------------

  /** A sort that emitted as many nodes as the graph has emitted every node
      exactly once. */
  lemma CompleteIsPermutation(deps: seq<seq<nat>>, sorted: seq<nat>)
    requires Distinct(sorted) && Nodes(sorted, |deps|)
    requires |sorted| == |deps|
    ensures forall v: nat | v < |deps| :: v in sorted
  {
    Pigeonhole(sorted, |deps|);
  }

  /** When every dependency points to an earlier node and every node without
      dependencies is a start node, the closed set holds every node: such a
      graph sorts completely. */
  lemma {:induction false} ForwardGraphSorts(deps: seq<seq<nat>>, start: seq<nat>, sorted: seq<nat>, v: nat)
    requires Released(deps, start, sorted)
    requires forall w | 0 <= w < |deps| :: forall x | x in deps[w] :: x < w
    requires forall w | 0 <= w < |deps| && deps[w] == [] :: w in start
    requires v < |deps|
    ensures v in sorted
    decreases v
  {
    if deps[v] != [] {
      forall x | x in deps[v] ensures x in Elems(sorted) {
        ForwardGraphSorts(deps, start, sorted, x);
      }
    }
  }
  /** The nodes below `n` whose in-degree is zero, in increasing order: the
      queue the sort starts from. */
  function Sources(indeg: seq<int>, n: nat): (r: seq<nat>)
    requires n <= |indeg|
    ensures Nodes(r, n) && Distinct(r)
    ensures forall i | 0 <= i < |r| :: indeg[r[i]] == 0
    ensures forall v: nat | v < n :: indeg[v] == 0 ==> v in r
  {
    if n == 0 then []
    else
      var r := Sources(indeg, n - 1);
      if indeg[n - 1] == 0 then
        assert n - 1 !in r by {
          forall i | 0 <= i < |r| ensures r[i] != n - 1 { }
        }
        DistinctAppend(r, n - 1);
        r + [n - 1]
      else r
  }

  /** Some entry of `ds` is in `s`. */
  predicate Hits(ds: seq<nat>, s: set<nat>)
  {
    |ds| > 0 && (ds[|ds| - 1] in s || Hits(ds[..|ds| - 1], s))
  }

  /** Every member of `s` below `n` has a dependency in `s`. */
  ghost predicate Blocking(deps: seq<seq<nat>>, s: set<nat>, n: nat)
    requires n <= |deps|
  {
    n > 0 ==> (n - 1 in s ==> Hits(deps[n - 1], s)) && Blocking(deps, s, n - 1)
  }

  /** A nonempty set of nodes each of which depends on a member of the set:
      none of them can ever be released. */
  ghost predicate Stuck(deps: seq<seq<nat>>, s: set<nat>)
  {
    s != {} && (forall v | v in s :: v < |deps|) && Blocking(deps, s, |deps|)
  }

  lemma {:induction false} HitsIff(ds: seq<nat>, s: set<nat>)
    ensures Hits(ds, s) <==> exists x | x in ds :: x in s
  {
    if |ds| > 0 {
      var t := ds[..|ds| - 1];
      HitsIff(t, s);
      assert forall x | x in ds :: x in t || x == ds[|ds| - 1];
      assert forall x | x in t :: x in ds;
    }
  }

  lemma {:induction false} BlockingIff(deps: seq<seq<nat>>, s: set<nat>, n: nat)
    requires n <= |deps|
    ensures Blocking(deps, s, n) <==> forall v: nat | v < n && v in s :: Hits(deps[v], s)
  {
    if n > 0 {
      BlockingIff(deps, s, n - 1);
    }
  }

  /** The stuck property spelled out. */
  lemma StuckIff(deps: seq<seq<nat>>, s: set<nat>)
    ensures Stuck(deps, s) <==> s != {} && forall v | v in s :: v < |deps| && exists x | x in deps[v] :: x in s
  {
    BlockingIff(deps, s, |deps|);
    forall v | v in s && v < |deps| ensures Hits(deps[v], s) <==> exists x | x in deps[v] :: x in s {
      HitsIff(deps[v], s);
    }
  }

  /** A sort seeded with every node without dependencies that stops short
      leaves behind a stuck set: the graph has a cycle. */
  lemma IncompleteIsStuck(deps: seq<seq<nat>>, start: seq<nat>, sorted: seq<nat>)
    requires Closed(deps) && Released(deps, start, sorted)
    requires Distinct(sorted) && Nodes(sorted, |deps|) && |sorted| < |deps|
    requires forall v: nat | v < |deps| && deps[v] == [] :: v in start
    ensures Stuck(deps, Below(|deps|) - Elems(sorted))
  {
    StuckIff(deps, Below(|deps|) - Elems(sorted));
    var n := |deps|;
    var s := Below(n) - Elems(sorted);
    DistinctSize(sorted);
    BelowSize(n);
    assert s != {} by {
      forall x | x in Elems(sorted) ensures x in Below(n) {
        var i :| 0 <= i < |sorted| && sorted[i] == x;
      }
      SubsetSize(Elems(sorted), Below(n));
      assert Elems(sorted) != Below(n);
      var y :| y in Below(n) && y !in Elems(sorted);
      assert y in s;
    }
    forall v | v in s ensures v < n && exists x | x in deps[v] :: x in s {
      assert v !in sorted;
      assert deps[v] != [];
      var x :| x in deps[v] && x !in Elems(sorted);
      var k :| 0 <= k < |deps[v]| && deps[v][k] == x;
      assert x < n;
      assert x in s;
    }
  }

  /** Nothing in `s` can appear in an ordered listing when each member of
      `s` depends on a member of `s`. */
  lemma {:induction false} OrderedAvoids(deps: seq<seq<nat>>, sorted: seq<nat>, s: set<nat>, i: nat)
    requires Ordered(deps, sorted) && i < |sorted|
    requires forall v | v in s :: v < |deps| && exists x | x in deps[v] :: x in s
    ensures sorted[i] !in s
    decreases i
  {
    forall j | 0 <= j < i ensures sorted[j] !in s {
      OrderedAvoids(deps, sorted, s, j);
    }
    forall x | x in deps[sorted[i]] ensures x !in s {
      var j :| 0 <= j < i && sorted[..i][j] == x;
      assert sorted[j] == x;
    }
  }

  /** A complete ordered listing leaves no stuck set: a graph that sorts
      completely has no cycle. */
  lemma OrderedNotStuck(deps: seq<seq<nat>>, sorted: seq<nat>, s: set<nat>)
    requires Ordered(deps, sorted)
    requires forall v: nat | v < |deps| :: v in sorted
    requires forall v | v in s :: v < |deps| && exists x | x in deps[v] :: x in s
    ensures s == {}
  {
    forall v: nat | v < |deps| ensures v !in s {
      assert v in sorted;
      var i :| 0 <= i < |sorted| && sorted[i] == v;
      OrderedAvoids(deps, sorted, s, i);
    }
  }
  /** What Kahn's verdict means: seeded with every node that has no
      dependencies, the sort emits every node exactly when the graph has no
      stuck set. */
  lemma CompleteUnlessStuck(deps: seq<seq<nat>>, start: seq<nat>, sorted: seq<nat>)
    requires Closed(deps) && Released(deps, start, sorted) && Ordered(deps, sorted)
    requires Distinct(sorted) && Nodes(sorted, |deps|)
    requires forall v: nat | v < |deps| && deps[v] == [] :: v in start
    ensures |sorted| <= |deps|
    ensures |sorted| == |deps| <==> !exists s :: Stuck(deps, s)
    ensures |sorted| == |deps| ==> forall v: nat | v < |deps| :: v in sorted
  {
    Pigeonhole(sorted, |deps|);
    if |sorted| < |deps| {
      IncompleteIsStuck(deps, start, sorted);
    } else {
      CompleteNotStuck(deps, sorted);
    }
  }

  /** A graph all of whose nodes are listed in dependency order has no
      stuck set. */
  lemma CompleteNotStuck(deps: seq<seq<nat>>, sorted: seq<nat>)
    requires Ordered(deps, sorted)
    requires forall v: nat | v < |deps| :: v in sorted
    ensures !exists s :: Stuck(deps, s)
  {
    forall s ensures !Stuck(deps, s) {
      NotStuck(deps, sorted, s);
    }
  }

  lemma NotStuck(deps: seq<seq<nat>>, sorted: seq<nat>, s: set<nat>)
    requires Ordered(deps, sorted)
    requires forall v: nat | v < |deps| :: v in sorted
    ensures !Stuck(deps, s)
  {
    StuckIff(deps, s);
    if Stuck(deps, s) {
      OrderedNotStuck(deps, sorted, s);
    }
  }
}
