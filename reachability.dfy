/** The dependents lists of the reactive graphs: `g[j]` lists the nodes
    that registered themselves as dependents of node `j`. A node is created
    after every node it depends on, so every dependent sits at a higher
    position; that is what makes dirty-marking terminate. `Downstream`
    is the set dirty-marking reaches. */
module Reachability {
  import TopoSort

  /** Every dependent comes after the node it depends on. */
  predicate Forward(g: seq<seq<nat>>)
  {
    forall j | 0 <= j < |g| :: forall k | 0 <= k < |g[j]| :: j < g[j][k] < |g|
  }

  /** Node `i` and everything reachable from it along dependents lists. */
  ghost function Downstream(g: seq<seq<nat>>, i: nat): set<nat>
    requires Forward(g) && i < |g|
    decreases |g| - i, 1
  {
    {i} + Reach(g, i, g[i])
  }

  /** What is downstream of any of `ds`, all of them after `lo`. */
  ghost function Reach(g: seq<seq<nat>>, lo: nat, ds: seq<nat>): set<nat>
    requires Forward(g) && lo < |g|
    requires forall k | 0 <= k < |ds| :: lo < ds[k] < |g|
    decreases |g| - lo, 0, |ds|
  {
    if |ds| == 0 then {}
    else Reach(g, lo, ds[..|ds| - 1]) + Downstream(g, ds[|ds| - 1])
  }

  /** Reach grows by one dependent's downstream when the dependent is added. */
  lemma ReachStep(g: seq<seq<nat>>, lo: nat, ds: seq<nat>, k: nat)
    requires Forward(g) && lo < |g|
    requires forall m | 0 <= m < |ds| :: lo < ds[m] < |g|
    requires k < |ds|
    ensures Reach(g, lo, ds[..k + 1]) == Reach(g, lo, ds[..k]) + Downstream(g, ds[k])
  {
    assert ds[..k + 1][..k] == ds[..k];
  }

  lemma ReachAll(g: seq<seq<nat>>, lo: nat, ds: seq<nat>)
    requires Forward(g) && lo < |g|
    requires forall m | 0 <= m < |ds| :: lo < ds[m] < |g|
    ensures Reach(g, lo, ds[..|ds|]) == Reach(g, lo, ds)
    ensures Reach(g, lo, ds[..0]) == {}
  {
    assert ds[..|ds|] == ds;
  }

  /** Everything reached lies within the graph, after `lo`. */
  lemma {:induction false} ReachBounds(g: seq<seq<nat>>, lo: nat, ds: seq<nat>)
    requires Forward(g) && lo < |g|
    requires forall m | 0 <= m < |ds| :: lo < ds[m] < |g|
    ensures forall x | x in Reach(g, lo, ds) :: lo < x < |g|
    decreases |g| - lo, 0, |ds|
  {
    if |ds| > 0 {
      ReachBounds(g, lo, ds[..|ds| - 1]);
      DownstreamBounds(g, ds[|ds| - 1]);
    }
  }

  lemma {:induction false} DownstreamBounds(g: seq<seq<nat>>, i: nat)
    requires Forward(g) && i < |g|
    ensures forall x | x in Downstream(g, i) :: i <= x < |g|
    decreases |g| - i, 1
  {
    ReachBounds(g, i, g[i]);
  }

  /** A member of the list has all its downstream reached. */
  lemma {:induction false} ReachHas(g: seq<seq<nat>>, lo: nat, ds: seq<nat>, k: nat)
    requires Forward(g) && lo < |g|
    requires forall m | 0 <= m < |ds| :: lo < ds[m] < |g|
    requires k < |ds|
    ensures Downstream(g, ds[k]) <= Reach(g, lo, ds)
    decreases |ds|
  {
    if k < |ds| - 1 {
      ReachHas(g, lo, ds[..|ds| - 1], k);
    }
  }

  /** Whatever is reached is downstream of one member of the list. */
  lemma {:induction false} ReachElim(g: seq<seq<nat>>, lo: nat, ds: seq<nat>, x: nat)
    requires Forward(g) && lo < |g|
    requires forall m | 0 <= m < |ds| :: lo < ds[m] < |g|
    requires x in Reach(g, lo, ds)
    ensures exists k | 0 <= k < |ds| :: x in Downstream(g, ds[k])
    decreases |ds|
  {
    var last := |ds| - 1;
    if x !in Downstream(g, ds[last]) {
      ReachElim(g, lo, ds[..last], x);
      var k :| 0 <= k < last && x in Downstream(g, ds[..last][k]);
      assert ds[..last][k] == ds[k];
    }
  }

  /** Downstream is transitive. */
  lemma {:induction false} DownstreamTransitive(g: seq<seq<nat>>, i: nat, j: nat)
    requires Forward(g) && i < |g|
    requires j in Downstream(g, i)
    ensures j < |g| && Downstream(g, j) <= Downstream(g, i)
    decreases |g| - i
  {
    DownstreamBounds(g, i);
    if j != i {
      ReachElim(g, i, g[i], j);
      var k :| 0 <= k < |g[i]| && j in Downstream(g, g[i][k]);
      DownstreamTransitive(g, g[i][k], j);
      ReachHas(g, i, g[i], k);
    }
  }

  /** Downstream is closed under dependents: a dependent of anything
      downstream of `i` is itself downstream of `i`. */
  lemma DownstreamClosed(g: seq<seq<nat>>, i: nat, j: nat, k: nat)
    requires Forward(g) && i < |g|
    requires j in Downstream(g, i)
    requires j < |g| && k < |g[j]|
    ensures g[j][k] in Downstream(g, i)
  {
    DownstreamTransitive(g, i, j);
    ReachHas(g, j, g[j], k);
  }

  /** `deps[m]` lists the nodes `m` depends on; `g` lists, for each node,
      the nodes that depend on it. */
  predicate Mirrors(deps: seq<seq<nat>>, g: seq<seq<nat>>)
  {
    |deps| == |g| && forall j, m | 0 <= j < |g| && 0 <= m < |g| :: j in deps[m] <==> m in g[j]
  }

  /** Whatever depends on something downstream of `i` is itself downstream
      of `i`: marking downstream reaches every transitive dependent. */
  lemma DownstreamDependers(deps: seq<seq<nat>>, g: seq<seq<nat>>, i: nat, j: nat, m: nat)
    requires Forward(g) && Mirrors(deps, g) && i < |g|
    requires j in Downstream(g, i)
    requires m < |g| && j in deps[m]
    ensures m in Downstream(g, i)
  {
    DownstreamBounds(g, i);
    var k :| 0 <= k < |g[j]| && g[j][k] == m;
    DownstreamClosed(g, i, j, k);
  }

  /** `c` copies of `x`. */
  function Copies(x: nat, c: nat): (r: seq<nat>)
    ensures |r| == c
    ensures forall k | 0 <= k < c :: r[k] == x
    ensures forall y :: y in r <==> c > 0 && y == x
  {
    if c == 0 then [] else Copies(x, c - 1) + [x]
  }

  /** The dependents lists once node `i` has registered itself with each
      entry of `ds`, once per occurrence. */
  function Enrolled(g: seq<seq<nat>>, i: nat, ds: seq<nat>): (r: seq<seq<nat>>)
    ensures |r| == |g|
    ensures forall j | 0 <= j < |g| :: r[j] == g[j] + Copies(i, TopoSort.Occ(j, ds))
  {
    seq(|g|, j requires 0 <= j < |g| => g[j] + Copies(i, TopoSort.Occ(j, ds)))
  }

  lemma EnrolledNone(g: seq<seq<nat>>, i: nat, ds: seq<nat>)
    ensures Enrolled(g, i, ds[..0]) == g
  {
    assert ds[..0] == [];
    var r := Enrolled(g, i, ds[..0]);
    forall j | 0 <= j < |g| ensures r[j] == g[j] {
      assert g[j] + [] == g[j];
    }
  }

  /** One more entry of `ds` appends `i` to that node's list. */
  lemma EnrolledStep(g: seq<seq<nat>>, i: nat, ds: seq<nat>, k: nat)
    requires k < |ds| && ds[k] < |g|
    ensures var e := Enrolled(g, i, ds[..k]);
            Enrolled(g, i, ds[..k + 1]) == e[ds[k] := e[ds[k]] + [i]]
  {
    var d := ds[k];
    assert ds[..k + 1] == ds[..k] + [d];
    var e := Enrolled(g, i, ds[..k]);
    var l := Enrolled(g, i, ds[..k + 1]);
    var r := e[d := e[d] + [i]];
    forall j | 0 <= j < |g| ensures l[j] == r[j] {
      TopoSort.OccAppend(j, ds[..k], d);
      if j == d {
        assert Copies(i, TopoSort.Occ(j, ds[..k + 1])) == Copies(i, TopoSort.Occ(j, ds[..k])) + [i];
      } else {
        assert Copies(i, TopoSort.Occ(j, ds[..k + 1])) == Copies(i, TopoSort.Occ(j, ds[..k]));
      }
    }
  }

  /** Adding a node whose dependencies all exist keeps the dependents
      graph forward. */
  lemma EnrolledForward(g: seq<seq<nat>>, ds: seq<nat>)
    requires Forward(g) && forall k | 0 <= k < |ds| :: ds[k] < |g|
    ensures Forward(Enrolled(g, |g|, ds) + [[]])
  {
    var i := |g|;
    var h := Enrolled(g, i, ds) + [[]];
    forall j, k | 0 <= j < |h| && 0 <= k < |h[j]| ensures j < h[j][k] < |h| {
      if j < i {
        assert h[j] == g[j] + Copies(i, TopoSort.Occ(j, ds));
        if k >= |g[j]| {
          assert h[j][k] == i;
        } else {
          assert h[j][k] == g[j][k];
        }
      }
    }
  }

  /** Adding a node keeps the dependency lists and the dependents lists
      mirror images, provided every dependency lies below its node. */
  lemma EnrolledMirrors(deps: seq<seq<nat>>, g: seq<seq<nat>>, ds: seq<nat>)
    requires Forward(g) && Mirrors(deps, g)
    requires forall m | 0 <= m < |deps| :: forall k | 0 <= k < |deps[m]| :: deps[m][k] < m
    requires forall k | 0 <= k < |ds| :: ds[k] < |g|
    ensures Mirrors(deps + [ds], Enrolled(g, |g|, ds) + [[]])
  {
    var i := |g|;
    var d2 := deps + [ds];
    var h := Enrolled(g, i, ds) + [[]];
    forall j, m | 0 <= j < |h| && 0 <= m < |h| ensures j in d2[m] <==> m in h[j] {
      if j < i {
        var extra := Copies(i, TopoSort.Occ(j, ds));
        assert h[j] == g[j] + extra;
        if m < i {
          assert d2[m] == deps[m];
          assert m !in extra;
        } else {
          assert i !in g[j] by {
            forall k | 0 <= k < |g[j]| ensures g[j][k] != i {
            }
          }
          assert d2[m] == ds;
        }
      } else if m < i {
        assert d2[m] == deps[m];
        assert forall k | 0 <= k < |deps[m]| :: deps[m][k] < m;
        assert j !in deps[m];
      }
    }
  }
}
