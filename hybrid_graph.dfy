/** The hybrid eager/lazy task graph: TaskNodes that compute from their
    dependencies' values, a registry that names them, and a DAG that runs
    the eager ones in topological order and answers for a target.

    Every TaskNode ever created lives in an arena (`Registry.tasks`) at
    the position it was created in; a node's dependencies are nodes that
    existed before it, so each dependency sits at a lower position and each
    dependent at a higher one. The registry's `nodes` dict is its keys in
    insertion order plus the map from key to arena position. User functions
    are abstract total functions from the dependency values to a value or
    None. */
module HybridGraph {
  import opened Wrappers
  import TopoSort
  import Reachability

  datatype ExecutionMode = Eager | Lazy | Cached

  datatype Error = ValueError(message: string) | KeyError(key: string) | IndexError(message: string)

  /** What a TaskNode fixes when it is created. */
  datatype Spec<!V> = Spec(name: string, func: seq<V> -> Option<V>, dependencies: seq<nat>,
                           mode: ExecutionMode, canSet: bool)

  /** A TaskNode: its fixed part, the dependents that registered with it,
      and its mutable state. `None` is Python's None. */
  datatype Task<!V> = Task(spec: Spec<V>, dependents: seq<nat>, result: Option<V>,
                           isComputed: bool, isDirty: bool, overrides: seq<Option<V>>)

  /** What `get_value` reports unless it computes: the top of the override
      stack, else the stored result. */
  function Shown<V>(t: Task<V>): Option<V>
  {
    if |t.overrides| > 0 then t.overrides[|t.overrides| - 1] else t.result
  }

  /** The state a successful computation leaves. */
  function Computed<V>(t: Task<V>, v: Option<V>): Task<V>
  {
    t.(result := v, isComputed := true, isDirty := false)
  }

  /** `reset`: only a computed node is reset. */
  function Cleared<V>(t: Task<V>): Task<V>
  {
    if t.isComputed then t.(isComputed := false, isDirty := true, overrides := []) else t
  }

  /** `compute` without `force` on a clean, computed node only reads. */
  predicate Unforced<V>(t: Task<V>, force: bool)
  {
    !force && !t.isDirty && t.isComputed
  }

  /** `get_value` computes this node: no override, dirty, lazy or cached. */
  predicate Stale<V>(t: Task<V>)
  {
    |t.overrides| == 0 && t.isDirty && t.spec.mode != Eager
  }

  // -- the arena -------------------------------------------------------------

  /** The dependents lists. */
  function Graph<V>(ts: seq<Task<V>>): (g: seq<seq<nat>>)
    ensures |g| == |ts| && forall j | 0 <= j < |ts| :: g[j] == ts[j].dependents
  {
    seq(|ts|, j requires 0 <= j < |ts| => ts[j].dependents)
  }

  /** Dependencies lie below their node, dependents above it. */
  ghost predicate Wired<V>(ts: seq<Task<V>>)
  {
    (forall j | 0 <= j < |ts| :: forall k | 0 <= k < |ts[j].spec.dependencies| :: ts[j].spec.dependencies[k] < j) &&
    Reachability.Forward(Graph(ts))
  }

  /** A node lists `m` as a dependent exactly when `m` lists it as a
      dependency. */
  ghost predicate Linked<V>(ts: seq<Task<V>>)
  {
    forall j, m | 0 <= j < |ts| && 0 <= m < |ts| :: j in ts[m].spec.dependencies <==> m in ts[j].dependents
  }

  /** Same nodes with the same fixed parts and dependents lists. */
  ghost predicate SameWiring<V>(a: seq<Task<V>>, b: seq<Task<V>>)
  {
    |a| == |b| && forall j | 0 <= j < |a| :: a[j].spec == b[j].spec && a[j].dependents == b[j].dependents
  }

  /** Same wiring and the same override stacks: only result, computed and
      dirty flags may differ. */
  ghost predicate SameShape<V>(a: seq<Task<V>>, b: seq<Task<V>>)
  {
    SameWiring(a, b) && forall j | 0 <= j < |a| :: a[j].overrides == b[j].overrides
  }

  /** Nodes above `i` are untouched. */
  ghost predicate Untouched<V>(a: seq<Task<V>>, b: seq<Task<V>>, i: nat)
  {
    |a| == |b| && forall j | i < j < |a| :: b[j] == a[j]
  }

  /** Computed flags only rise. */
  ghost predicate Monotone<V>(a: seq<Task<V>>, b: seq<Task<V>>)
  {
    |a| == |b| && forall j | 0 <= j < |a| :: a[j].isComputed ==> b[j].isComputed
  }

  /** Every node of `s` marked dirty. */
  ghost function Dirtied<V>(ts: seq<Task<V>>, s: set<nat>): (r: seq<Task<V>>)
    ensures |r| == |ts|
    ensures forall j | 0 <= j < |ts| :: r[j] == if j in s then ts[j].(isDirty := true) else ts[j]
  {
    seq(|ts|, j requires 0 <= j < |ts| => if j in s then ts[j].(isDirty := true) else ts[j])
  }

  /** Every node of `s` reset. */
  ghost function ClearedAll<V>(ts: seq<Task<V>>, s: set<nat>): (r: seq<Task<V>>)
    ensures |r| == |ts|
    ensures forall j | 0 <= j < |ts| :: r[j] == if j in s then Cleared(ts[j]) else ts[j]
  {
    seq(|ts|, j requires 0 <= j < |ts| => if j in s then Cleared(ts[j]) else ts[j])
  }

  /** Resetting one more node, or one already reset, since resetting twice
      is resetting once. */
  lemma ClearedAllStep<V>(ts: seq<Task<V>>, s: set<nat>, j: nat)
    requires j < |ts|
    ensures ClearedAll(ts, s)[j := Cleared(ClearedAll(ts, s)[j])] == ClearedAll(ts, s + {j})
  {
    var a, b := ClearedAll(ts, s)[j := Cleared(ClearedAll(ts, s)[j])], ClearedAll(ts, s + {j});
    forall m | 0 <= m < |ts| ensures a[m] == b[m] {
    }
  }

  /** The nodes stored under the names `ns`. */
  ghost function Slots(table: map<string, nat>, ns: seq<string>): set<nat>
    requires forall k | 0 <= k < |ns| :: ns[k] in table
  {
    if |ns| == 0 then {} else Slots(table, ns[..|ns| - 1]) + {table[ns[|ns| - 1]]}
  }

  lemma SlotsStep(table: map<string, nat>, ns: seq<string>, p: nat)
    requires forall m | 0 <= m < |ns| :: ns[m] in table
    requires p < |ns|
    ensures Slots(table, ns[..p + 1]) == Slots(table, ns[..p]) + {table[ns[p]]}
  {
    assert ns[..p + 1][..p] == ns[..p];
  }

  /** A node stored under one of `ns` is in their slots. */
  lemma {:induction false} SlotsHas(table: map<string, nat>, ns: seq<string>, k: nat)
    requires forall m | 0 <= m < |ns| :: ns[m] in table
    requires k < |ns|
    ensures table[ns[k]] in Slots(table, ns)
    decreases |ns|
  {
    if k < |ns| - 1 {
      SlotsHas(table, ns[..|ns| - 1], k);
    }
  }

  /** The slots are nodes stored under some name. */
  lemma {:induction false} SlotsStored(table: map<string, nat>, ns: seq<string>)
    requires forall m | 0 <= m < |ns| :: ns[m] in table
    ensures Slots(table, ns) <= table.Values
    decreases |ns|
  {
    if |ns| > 0 {
      SlotsStored(table, ns[..|ns| - 1]);
    }
  }

  /** The nodes `DAGRegistry.reset` visits: all the dict's values. */
  lemma SlotsAll<V>(ts: seq<Task<V>>, keys: seq<string>, table: map<string, nat>)
    requires Named(ts, keys, table)
    ensures forall k | 0 <= k < |keys| :: keys[k] in table
    ensures Slots(table, keys[..|keys|]) == table.Values
  {
    assert keys[..|keys|] == keys;
    SlotsStored(table, keys);
    forall j | j in table.Values ensures j in Slots(table, keys) {
      var n :| n in table && table[n] == j;
      var q :| 0 <= q < |keys| && keys[q] == n;
      SlotsHas(table, keys, q);
    }
  }

  /** The nodes downstream of `i`, itself excluded. */
  ghost function Below<V>(ts: seq<Task<V>>, i: nat): set<nat>
    requires Wired(ts) && i < |ts|
  {
    Reachability.Reach(Graph(ts), i, ts[i].dependents)
  }

  lemma WiredKept<V>(a: seq<Task<V>>, b: seq<Task<V>>)
    requires Wired(a) && SameWiring(a, b)
    ensures Wired(b) && Graph(b) == Graph(a)
  {
    assert Graph(b) == Graph(a);
  }

  /** Changing only results, flags and override stacks keeps the arena and
      the registry consistent. */
  lemma ValidKept<V>(a: seq<Task<V>>, b: seq<Task<V>>, keys: seq<string>, table: map<string, nat>)
    requires Wired(a) && Linked(a) && Named(a, keys, table) && SameWiring(a, b)
    ensures Wired(b) && Linked(b) && Named(b, keys, table) && Graph(b) == Graph(a)
  {
    WiredKept(a, b);
  }

  /** One dependent's downstream is marked on top of the earlier ones. */
  lemma MarkedStep<V>(start: seq<Task<V>>, before: seq<Task<V>>, after: seq<Task<V>>,
                      g: seq<seq<nat>>, i: nat, ds: seq<nat>, k: nat)
    requires Reachability.Forward(g) && i < |g| && k < |ds|
    requires forall m | 0 <= m < |ds| :: i < ds[m] < |g|
    requires |start| == |g| && before == Dirtied(start, Reachability.Reach(g, i, ds[..k]))
    requires Graph(before) == g
    requires after == Dirtied(before, Reachability.Downstream(g, ds[k]))
    ensures |after| == |g| && Graph(after) == g
    ensures after == Dirtied(start, Reachability.Reach(g, i, ds[..k + 1]))
  {
    DirtiedGraph(before, Reachability.Downstream(g, ds[k]));
    Reachability.ReachStep(g, i, ds, k);
    DirtiedTwice(start, Reachability.Reach(g, i, ds[..k]), Reachability.Downstream(g, ds[k]));
  }

  /** Storing a computed value at `i` on top of `mid`, whose dependencies
      of `i` were fetched as `vals`. */
  lemma ComputedStep<V>(start: seq<Task<V>>, mid: seq<Task<V>>, after: seq<Task<V>>, i: nat,
                        vals: seq<Option<V>>, args: seq<V>)
    requires Wired(start) && Wired(mid) && Progress(start, mid) && i < |mid|
    requires mid[i] == start[i] && Untouched(start, mid, i) && Monotone(start, mid)
    requires |vals| == |mid[i].spec.dependencies|
    requires forall m | 0 <= m < |vals| ::
               Settled(mid, mid[i].spec.dependencies[m]) && Shown(mid[mid[i].spec.dependencies[m]]) == vals[m]
    requires forall m | 0 <= m < |vals| :: vals[m].Some?
    requires args == seq(|vals|, m requires 0 <= m < |vals| => vals[m].value)
    requires after == mid[i := Computed(mid[i], mid[i].spec.func(args))]
    ensures Wired(after) && SameShape(start, after) && Untouched(start, after, i) && Monotone(start, after)
    ensures Gathered(after, i) && !Blocked(after, i)
    ensures after[i] == Computed(start[i], Apply(after, i))
    ensures Stale(start[i]) ==> Progress(start, after)
  {
    StoredShape(start, mid, after, i, mid[i].spec.func(args));
    StoredGathered(mid, after, i, vals, args);
    if Stale(start[i]) {
      StoredProgress(start, mid, after, i, vals);
    }
  }

  /** Storing a result at `i` changes only that node's result and flags. */
  lemma StoredShape<V>(start: seq<Task<V>>, mid: seq<Task<V>>, after: seq<Task<V>>, i: nat, v: Option<V>)
    requires Wired(start) && Progress(start, mid) && i < |mid|
    requires mid[i] == start[i] && Untouched(start, mid, i) && Monotone(start, mid)
    requires after == mid[i := Computed(mid[i], v)]
    ensures Wired(after) && SameShape(start, after) && Untouched(start, after, i) && Monotone(start, after)
    ensures after[i] == Computed(start[i], v)
  {
    assert SameShape(start, after);
    WiredKept(start, after);
  }

  /** After the store the dependencies of `i` are still settled at the
      values fetched, so the stored result is the function applied to them. */
  lemma StoredGathered<V>(mid: seq<Task<V>>, after: seq<Task<V>>, i: nat, vals: seq<Option<V>>, args: seq<V>)
    requires Wired(mid) && Wired(after) && i < |mid| == |after|
    requires after[i].spec == mid[i].spec && forall j | 0 <= j < i :: after[j] == mid[j]
    requires |vals| == |mid[i].spec.dependencies|
    requires forall m | 0 <= m < |vals| ::
               Settled(mid, mid[i].spec.dependencies[m]) && Shown(mid[mid[i].spec.dependencies[m]]) == vals[m]
    requires forall m | 0 <= m < |vals| :: vals[m].Some?
    requires args == seq(|vals|, m requires 0 <= m < |vals| => vals[m].value)
    ensures Gathered(after, i) && !Blocked(after, i) && Apply(after, i) == mid[i].spec.func(args)
  {
    var deps := mid[i].spec.dependencies;
    forall k | 0 <= k < |deps| ensures Settled(after, deps[k]) && Shown(after[deps[k]]) == vals[k] {
      SettledBelow(mid, after, deps[k]);
    }
    assert args == seq(|deps|, k requires 0 <= k < |deps| => Shown(after[deps[k]]).value);
  }

  /** A stale node whose dependencies all report a value was not settled,
      so storing its result is progress. */
  lemma StoredProgress<V>(start: seq<Task<V>>, mid: seq<Task<V>>, after: seq<Task<V>>, i: nat, vals: seq<Option<V>>)
    requires Wired(start) && Wired(mid) && Progress(start, mid) && i < |mid| && mid[i] == start[i]
    requires |vals| == |mid[i].spec.dependencies|
    requires forall m | 0 <= m < |vals| :: Shown(mid[mid[i].spec.dependencies[m]]) == vals[m] && vals[m].Some?
    requires SameShape(start, after) && forall j | 0 <= j < |mid| && j != i :: after[j] == mid[j]
    requires Stale(start[i])
    ensures Progress(start, after)
  {
    SettledBlocks(start, mid, i);
  }

  /** One more dependency fetched: the earlier ones stay settled at their
      values. */
  lemma FetchedStep<V>(start: seq<Task<V>>, before: seq<Task<V>>, after: seq<Task<V>>, i: nat,
                       vals: seq<Option<V>>, v: Option<V>)
    requires Wired(start) && Wired(before) && Wired(after) && i < |before|
    requires Progress(start, before) && Monotone(start, before) && Untouched(start, before, i) && before[i] == start[i]
    requires |vals| < |before[i].spec.dependencies|
    requires forall m | 0 <= m < |vals| ::
               Settled(before, before[i].spec.dependencies[m]) && Shown(before[before[i].spec.dependencies[m]]) == vals[m]
    requires Progress(before, after) && Monotone(before, after)
    requires Untouched(before, after, before[i].spec.dependencies[|vals|])
    requires Settled(after, before[i].spec.dependencies[|vals|]) && v == Shown(after[before[i].spec.dependencies[|vals|]])
    ensures Progress(start, after) && Monotone(start, after) && Untouched(start, after, i) && after[i] == start[i]
    ensures forall m | 0 <= m < |vals| + 1 ::
              Settled(after, after[i].spec.dependencies[m]) && Shown(after[after[i].spec.dependencies[m]]) == (vals + [v])[m]
  {
    var deps := before[i].spec.dependencies;
    forall m | 0 <= m < |vals| ensures Settled(after, deps[m]) && after[deps[m]] == before[deps[m]] {
      SettledKept(before, after, deps[m]);
    }
    ProgressTrans(start, before, after);
  }

  /** Rewriting node `i`'s state keeps the wiring and what lies
      downstream of it. */
  lemma Relabelled<V>(ts: seq<Task<V>>, i: nat, t: Task<V>)
    requires Wired(ts) && i < |ts| && t.spec == ts[i].spec && t.dependents == ts[i].dependents
    ensures SameWiring(ts, ts[i := t]) && Wired(ts[i := t]) && Below(ts[i := t], i) == Below(ts, i)
  {
    WiredKept(ts, ts[i := t]);
  }

  /** Marking dirty a relabelled arena keeps it consistent. */
  lemma DirtiedValid<V>(a: seq<Task<V>>, ts: seq<Task<V>>, s: set<nat>, keys: seq<string>, table: map<string, nat>)
    requires Wired(a) && Linked(a) && Named(a, keys, table) && SameWiring(a, ts)
    ensures Wired(Dirtied(ts, s)) && Linked(Dirtied(ts, s)) && Named(Dirtied(ts, s), keys, table)
  {
    DirtiedGraph(ts, s);
    ValidKept(a, Dirtied(ts, s), keys, table);
  }

  /** Resetting one node keeps the arena consistent. */
  lemma ClearedValid<V>(ts: seq<Task<V>>, i: nat, keys: seq<string>, table: map<string, nat>)
    requires Wired(ts) && Linked(ts) && Named(ts, keys, table) && i < |ts|
    ensures Wired(ts[i := Cleared(ts[i])]) && Linked(ts[i := Cleared(ts[i])]) && Named(ts[i := Cleared(ts[i])], keys, table)
  {
    ValidKept(ts, ts[i := Cleared(ts[i])], keys, table);
  }

  lemma DirtiedGraph<V>(ts: seq<Task<V>>, s: set<nat>)
    ensures SameShape(ts, Dirtied(ts, s)) && Graph(Dirtied(ts, s)) == Graph(ts)
  {
    assert Graph(Dirtied(ts, s)) == Graph(ts);
  }

  lemma DirtiedTwice<V>(ts: seq<Task<V>>, a: set<nat>, b: set<nat>)
    ensures Dirtied(Dirtied(ts, a), b) == Dirtied(ts, a + b)
  {
    var l := Dirtied(Dirtied(ts, a), b);
    var r := Dirtied(ts, a + b);
    forall j | 0 <= j < |ts| ensures l[j] == r[j] {
      if j in a && j in b {
        assert l[j] == ts[j].(isDirty := true).(isDirty := true);
      }
    }
  }

  /** Marking the dependents of anything downstream of `i` also marks
      every node that lists it as a dependency: dirtiness reaches every
      transitive dependent. */
  lemma DirtyReachesDependers<V>(ts: seq<Task<V>>, i: nat, j: nat, m: nat)
    requires Wired(ts) && Linked(ts) && i < |ts|
    requires j in Reachability.Downstream(Graph(ts), i)
    requires m < |ts| && j in ts[m].spec.dependencies
    ensures m in Reachability.Downstream(Graph(ts), i)
  {
    Reachability.DownstreamBounds(Graph(ts), i);
    var k :| 0 <= k < |ts[j].dependents| && ts[j].dependents[k] == m;
    Reachability.DownstreamClosed(Graph(ts), i, j, k);
  }

  // -- which values are settled ---------------------------------------------

  /** A node whose reported value no further `get_value` call can change:
      it has an override, or it is not computed on demand, or one of its
      dependencies is settled at None (so computing it would be skipped). */
  ghost predicate Settled<V>(ts: seq<Task<V>>, i: nat)
    requires Wired(ts) && i < |ts|
    decreases i
  {
    var deps := ts[i].spec.dependencies;
    !Stale(ts[i]) ||
    exists k | 0 <= k < |deps| :: Settled(ts, deps[k]) && Shown(ts[deps[k]]).None?
  }

  /** Every dependency of `i` is settled. */
  ghost predicate Gathered<V>(ts: seq<Task<V>>, i: nat)
    requires Wired(ts) && i < |ts|
  {
    var deps := ts[i].spec.dependencies;
    forall k | 0 <= k < |deps| :: Settled(ts, deps[k])
  }

  /** Some dependency of `i` reports None. */
  ghost predicate Blocked<V>(ts: seq<Task<V>>, i: nat)
    requires Wired(ts) && i < |ts|
  {
    var deps := ts[i].spec.dependencies;
    exists k | 0 <= k < |deps| :: Shown(ts[deps[k]]).None?
  }

  /** The user function of `i` applied to its dependencies' values. */
  ghost function Apply<V>(ts: seq<Task<V>>, i: nat): Option<V>
    requires Wired(ts) && i < |ts| && !Blocked(ts, i)
  {
    var deps := ts[i].spec.dependencies;
    ts[i].spec.func(seq(|deps|, k requires 0 <= k < |deps| => Shown(ts[deps[k]]).value))
  }

  /** Between `a` and `b` only unsettled nodes changed, and only in their
      result and flags. */
  ghost predicate Progress<V>(a: seq<Task<V>>, b: seq<Task<V>>)
    requires Wired(a)
  {
    SameShape(a, b) && forall j | 0 <= j < |a| && Settled(a, j) :: b[j] == a[j]
  }

  /** Settledness depends only on the node and those below it. */
  lemma {:induction false} SettledBelow<V>(a: seq<Task<V>>, b: seq<Task<V>>, d: nat)
    requires Wired(a) && Wired(b) && d < |a| && d < |b|
    requires forall j | 0 <= j <= d :: a[j] == b[j]
    ensures Settled(a, d) == Settled(b, d)
    decreases d
  {
    var deps := a[d].spec.dependencies;
    forall k | 0 <= k < |deps| ensures Settled(a, deps[k]) == Settled(b, deps[k]) {
      SettledBelow(a, b, deps[k]);
    }
  }

  /** A settled node stays settled while only unsettled nodes change. */
  lemma {:induction false} SettledKept<V>(a: seq<Task<V>>, b: seq<Task<V>>, j: nat)
    requires Wired(a) && Wired(b) && SameShape(a, b) && j < |a|
    requires forall m | 0 <= m < |a| && Settled(a, m) :: b[m] == a[m]
    requires Settled(a, j)
    ensures Settled(b, j)
    decreases j
  {
    if Stale(a[j]) {
      var deps := a[j].spec.dependencies;
      var k :| 0 <= k < |deps| && Settled(a, deps[k]) && Shown(a[deps[k]]).None?;
      SettledKept(a, b, deps[k]);
    }
  }

  lemma ShapeTrans<V>(a: seq<Task<V>>, b: seq<Task<V>>, c: seq<Task<V>>)
    requires SameShape(a, b) && SameShape(b, c) && Monotone(a, b) && Monotone(b, c)
    ensures SameShape(a, c) && Monotone(a, c)
  {
  }

  lemma ProgressTrans<V>(a: seq<Task<V>>, b: seq<Task<V>>, c: seq<Task<V>>)
    requires Wired(a) && Wired(b) && Progress(a, b) && Progress(b, c)
    ensures Progress(a, c)
  {
    forall j | 0 <= j < |a| && Settled(a, j) ensures c[j] == a[j] {
      SettledKept(a, b, j);
    }
  }

  /** A settled stale node is held back by a dependency that stays None. */
  lemma SettledBlocks<V>(a: seq<Task<V>>, b: seq<Task<V>>, i: nat)
    requires Wired(a) && Wired(b) && Progress(a, b) && i < |a| && Stale(a[i])
    ensures Settled(a, i) ==> Blocked(b, i)
  {
    if Settled(a, i) {
      var deps := a[i].spec.dependencies;
      var k :| 0 <= k < |deps| && Settled(a, deps[k]) && Shown(a[deps[k]]).None?;
      assert b[deps[k]] == a[deps[k]];
      assert b[i].spec == a[i].spec;
    }
  }

  /** A stale node whose dependencies are settled and one of them None is
      itself settled. */
  lemma BlockedSettles<V>(ts: seq<Task<V>>, i: nat)
    requires Wired(ts) && i < |ts| && Gathered(ts, i) && Blocked(ts, i)
    ensures Settled(ts, i)
  {
    var deps := ts[i].spec.dependencies;
    var k :| 0 <= k < |deps| && Shown(ts[deps[k]]).None?;
    assert Settled(ts, deps[k]);
  }

  // -- what get_value reports ------------------------------------------------

  /** The value `get_value` reports for node `i`: a node it does not
      compute reports its top override or its stored result; a dirty lazy
      or cached node reports its function applied to its dependencies'
      values, or its stored result when one of those is None. */
  ghost function Eval<V>(ts: seq<Task<V>>, i: nat): Option<V>
    requires Wired(ts) && i < |ts|
    decreases i, 1
  {
    var t := ts[i];
    if !Stale(t) then Shown(t)
    else
      var args := Args(ts, t.spec.dependencies, i);
      if HasNone(args) then t.result else t.spec.func(Values(args))
  }

  /** The values of the nodes `ds`, all below `bound`. */
  ghost function Args<V>(ts: seq<Task<V>>, ds: seq<nat>, bound: nat): (r: seq<Option<V>>)
    requires Wired(ts) && bound <= |ts|
    requires forall k | 0 <= k < |ds| :: ds[k] < bound
    ensures |r| == |ds| && forall k | 0 <= k < |ds| :: r[k] == Eval(ts, ds[k])
    decreases bound, 0, |ds|
  {
    if |ds| == 0 then []
    else
      var r := Args(ts, ds[..|ds| - 1], bound) + [Eval(ts, ds[|ds| - 1])];
      assert forall k | 0 <= k < |ds| - 1 :: ds[..|ds| - 1][k] == ds[k];
      r
  }

  /** `any(val is None for val in dependency_values)`. */
  predicate HasNone<V>(vals: seq<Option<V>>)
  {
    exists k | 0 <= k < |vals| :: vals[k].None?
  }

  /** The values inside a list with no None. */
  function Values<V>(vals: seq<Option<V>>): (r: seq<V>)
    requires !HasNone(vals)
    ensures |r| == |vals| && forall k | 0 <= k < |vals| :: vals[k] == Some(r[k])
  {
    seq(|vals|, k requires 0 <= k < |vals| => vals[k].value)
  }

  /** Every node reports the same value in both. */
  ghost predicate EvalKept<V>(a: seq<Task<V>>, b: seq<Task<V>>)
    requires Wired(a) && Wired(b)
  {
    |a| == |b| && forall j | 0 <= j < |a| :: Eval(b, j) == Eval(a, j)
  }

  /** Only nodes that `get_value` would compute changed, apart from `i`. */
  ghost predicate OnlyStale<V>(a: seq<Task<V>>, b: seq<Task<V>>, i: nat)
  {
    |a| == |b| && forall j | 0 <= j < |a| && j != i && !Stale(a[j]) :: b[j] == a[j]
  }

  /** A settled node reports what it shows: `get_value` would not change
      it. */
  lemma {:induction false} SettledEval<V>(ts: seq<Task<V>>, i: nat)
    requires Wired(ts) && i < |ts| && Settled(ts, i)
    ensures Eval(ts, i) == Shown(ts[i])
    decreases i
  {
    if Stale(ts[i]) {
      var deps := ts[i].spec.dependencies;
      var k :| 0 <= k < |deps| && Settled(ts, deps[k]) && Shown(ts[deps[k]]).None?;
      SettledEval(ts, deps[k]);
      assert Args(ts, deps, i)[k].None?;
    }
  }

  /** A node reports the same value in two arenas when it is the same node
      there and its dependencies report the same values. */
  lemma EvalLocal<V>(a: seq<Task<V>>, b: seq<Task<V>>, j: nat)
    requires Wired(a) && Wired(b) && j < |a| && j < |b| && a[j] == b[j]
    requires forall k | 0 <= k < |a[j].spec.dependencies| ::
               Eval(a, a[j].spec.dependencies[k]) == Eval(b, a[j].spec.dependencies[k])
    ensures Eval(a, j) == Eval(b, j)
  {
    var ds := a[j].spec.dependencies;
    assert Args(a, ds, j) == Args(b, ds, j);
  }

  /** What a node reports depends only on the nodes at or below it. */
  lemma {:induction false} EvalBelow<V>(a: seq<Task<V>>, b: seq<Task<V>>, j: nat)
    requires Wired(a) && Wired(b) && j < |a| && j < |b|
    requires forall k | 0 <= k <= j :: a[k] == b[k]
    ensures Eval(a, j) == Eval(b, j)
    decreases j
  {
    var ds := a[j].spec.dependencies;
    forall k | 0 <= k < |ds| ensures Eval(a, ds[k]) == Eval(b, ds[k]) {
      EvalBelow(a, b, ds[k]);
    }
    EvalLocal(a, b, j);
  }

  /** Changing one node without changing what it reports changes what no
      node reports. */
  lemma {:induction false} EvalAgree<V>(a: seq<Task<V>>, b: seq<Task<V>>, i: nat, j: nat)
    requires Wired(a) && Wired(b) && |a| == |b| && i < |a| && j < |a|
    requires forall m | 0 <= m < |a| && m != i :: a[m] == b[m]
    requires Eval(a, i) == Eval(b, i)
    ensures Eval(a, j) == Eval(b, j)
    decreases j
  {
    if j != i {
      var ds := a[j].spec.dependencies;
      forall k | 0 <= k < |ds| ensures Eval(a, ds[k]) == Eval(b, ds[k]) {
        EvalAgree(a, b, i, ds[k]);
      }
      EvalLocal(a, b, j);
    }
  }

  /** One more dependency fetched: the values so far are still what the
      starting arena reports. */
  lemma EvalFetched<V>(start: seq<Task<V>>, before: seq<Task<V>>, after: seq<Task<V>>, i: nat,
                       vals: seq<Option<V>>, v: Option<V>)
    requires Wired(start) && Wired(before) && Wired(after) && i < |start|
    requires |vals| < |start[i].spec.dependencies|
    requires EvalKept(start, before) && vals == Args(start, start[i].spec.dependencies[..|vals|], i)
    requires EvalKept(before, after) && v == Eval(before, start[i].spec.dependencies[|vals|])
    ensures EvalKept(start, after) && vals + [v] == Args(start, start[i].spec.dependencies[..|vals| + 1], i)
  {
    var deps := start[i].spec.dependencies;
    assert deps[..|vals| + 1][..|vals|] == deps[..|vals|];
  }

  /** Storing what a stale node computes from its dependencies' values
      changes what no node reports. */
  lemma StoreComputed<V>(start: seq<Task<V>>, mid: seq<Task<V>>, after: seq<Task<V>>, i: nat, vals: seq<Option<V>>)
    requires Wired(start) && Wired(mid) && Wired(after) && i < |mid| && EvalKept(start, mid)
    requires mid[i] == start[i] && Stale(start[i])
    requires vals == Args(start, start[i].spec.dependencies, i) && !HasNone(vals)
    requires after == mid[i := Computed(mid[i], mid[i].spec.func(Values(vals)))]
    ensures EvalKept(start, after)
  {
    assert Args(mid, mid[i].spec.dependencies, i) == vals;
    forall j | 0 <= j < |after| ensures Eval(after, j) == Eval(mid, j) {
      EvalAgree(mid, after, i, j);
    }
  }

  // -- the registry's name graph -----------------------------------------------

  /** The position of `x` in `s`. */
  function IndexOf(s: seq<string>, x: string): (r: nat)
    requires x in s
    ensures r < |s| && s[r] == x
  {
    if s[0] == x then 0 else 1 + IndexOf(s[1..], x)
  }

  /** The registry is consistent: keys are distinct, the dict holds exactly
      the keys, and each key names the node stored under it. */
  ghost predicate Named<V>(ts: seq<Task<V>>, keys: seq<string>, table: map<string, nat>)
  {
    (forall a, b | 0 <= a < b < |keys| :: keys[a] != keys[b]) &&
    (forall n :: n in table <==> n in keys) &&
    (forall n | n in table :: table[n] < |ts| && ts[table[n]].spec.name == n)
  }

  /** The names of a registered node's dependencies, in order. */
  ghost function DepNames<V>(ts: seq<Task<V>>, table: map<string, nat>, n: string): seq<string>
    requires Wired(ts) && n in table && table[n] < |ts|
  {
    var deps := ts[table[n]].spec.dependencies;
    seq(|deps|, k requires 0 <= k < |deps| => ts[deps[k]].spec.name)
  }

  /** Every dependency of a registered node is registered under its name. */
  ghost predicate AllRegistered<V>(ts: seq<Task<V>>, keys: seq<string>, table: map<string, nat>)
    requires Wired(ts) && Named(ts, keys, table)
  {
    forall p | 0 <= p < |keys| :: RowRegistered(ts, table, keys[p])
  }

  /** Every dependency of node `n` is registered under its name. */
  ghost predicate RowRegistered<V>(ts: seq<Task<V>>, table: map<string, nat>, n: string)
    requires Wired(ts) && n in table && table[n] < |ts|
  {
    forall d | d in DepNames(ts, table, n) :: d in table
  }

  /** The key positions of the dependencies of node `n`. */
  ghost function PositionRow<V>(ts: seq<Task<V>>, keys: seq<string>, table: map<string, nat>, n: string): seq<nat>
    requires Wired(ts) && Named(ts, keys, table) && n in table && RowRegistered(ts, table, n)
  {
    var ns := DepNames(ts, table, n);
    seq(|ns|, k requires 0 <= k < |ns| => IndexOf(keys, ns[k]))
  }

  /** The name graph over key positions. */
  ghost function PositionDeps<V>(ts: seq<Task<V>>, keys: seq<string>, table: map<string, nat>): (deps: seq<seq<nat>>)
    requires Wired(ts) && Named(ts, keys, table) && AllRegistered(ts, keys, table)
    ensures |deps| == |keys| && TopoSort.Closed(deps)
  {
    seq(|keys|, p requires 0 <= p < |keys| => PositionRow(ts, keys, table, keys[p]))
  }

  /** The name graph has a cycle: a nonempty set of key positions each of
      which has a dependency whose name sits at a position in the set. */
  ghost predicate Cyclic<V>(ts: seq<Task<V>>, keys: seq<string>, table: map<string, nat>)
    requires Wired(ts) && Named(ts, keys, table) && AllRegistered(ts, keys, table)
  {
    exists s :: TopoSort.Stuck(PositionDeps(ts, keys, table), s)
  }

  /** The listing `order` is a topological order of the registry: every key
      exactly once, each after all its dependencies' names. */
  ghost predicate SortedNames<V>(ts: seq<Task<V>>, keys: seq<string>, table: map<string, nat>, order: seq<string>)
    requires Wired(ts) && Named(ts, keys, table)
  {
    |order| == |keys| &&
    (forall a, b | 0 <= a < b < |order| :: order[a] != order[b]) &&
    (forall n | n in table :: n in order) &&
    (forall i | 0 <= i < |order| :: order[i] in table && forall d | d in DepNames(ts, table, order[i]) :: d in order[..i])
  }

  lemma PositionEntry<V>(ts: seq<Task<V>>, keys: seq<string>, table: map<string, nat>, p: nat, k: nat)
    requires Wired(ts) && Named(ts, keys, table) && AllRegistered(ts, keys, table)
    requires p < |keys| && k < |DepNames(ts, table, keys[p])|
    ensures k < |PositionDeps(ts, keys, table)[p]|
    ensures keys[PositionDeps(ts, keys, table)[p][k]] == DepNames(ts, table, keys[p])[k]
  {
    assert DepNames(ts, table, keys[p])[k] in DepNames(ts, table, keys[p]);
  }

  // -- the registry --------------------------------------------------------------

  /** The DAGRegistry's `nodes` dict together with the arena of every
      TaskNode created. */
  class Registry<V(!new)> {
    var tasks: seq<Task<V>>
    var keys: seq<string>
    var table: map<string, nat>

    ghost predicate Valid()
      reads this
    {
      Wired(tasks) && Linked(tasks) && Named(tasks, keys, table)
    }

    constructor()
      ensures Valid() && tasks == [] && keys == [] && table == map[]
    {
      tasks := [];
      keys := [];
      table := map[];
    }

    /** `TaskNode.__init__`: a fresh dirty, uncomputed node with no
        override, registered as a dependent of each of its dependencies
        (once per listing). */
    method AddTask(name: string, func: seq<V> -> Option<V>, dependencies: seq<nat>,
                   mode: ExecutionMode, canSet: bool) returns (i: nat)
      requires Valid()
      requires forall k | 0 <= k < |dependencies| :: dependencies[k] < |tasks|
      modifies this
      ensures Valid() && keys == old(keys) && table == old(table)
      ensures i == |old(tasks)| && |tasks| == i + 1
      ensures tasks[i] == Task(Spec(name, func, dependencies, mode, canSet), [], None, false, true, [])
      ensures forall j | 0 <= j < i ::
                tasks[j] == old(tasks[j]).(dependents := old(tasks[j]).dependents + Reachability.Copies(i, TopoSort.Occ(j, dependencies)))
    {
      i := |tasks|;
      ghost var created := Task(Spec(name, func, dependencies, mode, canSet), [], None, false, true, []);
      tasks := tasks + [Task(Spec(name, func, dependencies, mode, canSet), [], None, false, true, [])];
      var k := 0;
      Reachability.EnrolledNone(Graph(old(tasks)), i, dependencies);
      RewiredSame(old(tasks));
      while k < |dependencies|
        invariant k <= |dependencies| && keys == old(keys) && table == old(table)
        invariant tasks == Rewired(old(tasks), Reachability.Enrolled(Graph(old(tasks)), i, dependencies[..k])) + [created]
      {
        var d := dependencies[k];
        Reachability.EnrolledStep(Graph(old(tasks)), i, dependencies, k);
        RewiredAppend(old(tasks), Reachability.Enrolled(Graph(old(tasks)), i, dependencies[..k]), d, i);
        tasks := tasks[d := tasks[d].(dependents := tasks[d].dependents + [i])];
        k := k + 1;
      }
      assert dependencies[..k] == dependencies;
      AddedWired(old(tasks), tasks, i, dependencies);
    }

    /** `nodes[node.name] = node`; a new key goes to the end, an existing
        key keeps its place and now names the new node. */
    method Register(i: nat)
      requires Valid() && i < |tasks|
      modifies this
      ensures Valid() && tasks == old(tasks)
      ensures table == old(table)[tasks[i].spec.name := i]
      ensures keys == if tasks[i].spec.name in old(table) then old(keys) else old(keys) + [tasks[i].spec.name]
    {
      var name := tasks[i].spec.name;
      if name !in table {
        assert forall a | 0 <= a < |keys| :: keys[a] != name by {
          forall a | 0 <= a < |keys| ensures keys[a] != name {
            assert keys[a] in keys;
          }
        }
        keys := keys + [name];
      }
      table := table[name := i];
    }

    /** `TaskNode.compute`. Without `force`, a clean computed node answers
        from its cache. Otherwise every dependency's value is fetched; if
        any is None nothing changes and None is returned, else the result
        of the user function on those values is stored and the node marked
        computed and clean. */
    method Compute(i: nat, force: bool) returns (r: Option<V>)
      requires Wired(tasks) && i < |tasks|
      modifies this
      ensures Wired(tasks) && keys == old(keys) && table == old(table)
      ensures SameShape(old(tasks), tasks) && Untouched(old(tasks), tasks, i) && Monotone(old(tasks), tasks)
      ensures Unforced(old(tasks[i]), force) ==> r == old(tasks[i]).result && tasks == old(tasks)
      ensures !Unforced(old(tasks[i]), force) ==>
                Gathered(tasks, i) &&
                if Blocked(tasks, i) then r.None? && tasks[i] == old(tasks[i])
                else tasks[i] == Computed(old(tasks[i]), Apply(tasks, i)) && r == tasks[i].result
      ensures !Unforced(old(tasks[i]), force) ==>
                var args := Args(old(tasks), old(tasks[i]).spec.dependencies, i);
                if HasNone(args) then r.None? && tasks[i] == old(tasks[i])
                else r == old(tasks[i]).spec.func(Values(args)) && tasks[i] == Computed(old(tasks[i]), r)
      ensures OnlyStale(old(tasks), tasks, i)
      ensures Stale(old(tasks[i])) ==> Progress(old(tasks), tasks) && EvalKept(old(tasks), tasks)
      decreases i, 0
    {
      var t := tasks[i];
      if !force && !t.isDirty && t.isComputed {
        return t.result;
      }
      var vals := FetchAll(i);
      if HasNone(vals) {
        return None;
      }
      var args := Values(vals);
      var res := t.spec.func(args);
      ghost var mid := tasks;
      tasks := tasks[i := Computed(t, res)];
      ComputedStep(old(tasks), mid, tasks, i, vals, args);
      if Stale(t) {
        StoreComputed(old(tasks), mid, tasks, i, vals);
      }
      return res;
    }

    /** The dependency values of `i`, fetched in order with `get_value`;
        each dependency is settled afterwards at the value fetched. */
    method FetchAll(i: nat) returns (vals: seq<Option<V>>)
      requires Wired(tasks) && i < |tasks|
      modifies this
      ensures Wired(tasks) && keys == old(keys) && table == old(table)
      ensures Progress(old(tasks), tasks) && Monotone(old(tasks), tasks)
      ensures tasks[i] == old(tasks[i]) && Untouched(old(tasks), tasks, i)
      ensures |vals| == |tasks[i].spec.dependencies|
      ensures forall m | 0 <= m < |vals| ::
                Settled(tasks, tasks[i].spec.dependencies[m]) && Shown(tasks[tasks[i].spec.dependencies[m]]) == vals[m]
      ensures EvalKept(old(tasks), tasks) && vals == Args(old(tasks), old(tasks[i]).spec.dependencies, i)
      decreases i, 0, 0
    {
      var deps := tasks[i].spec.dependencies;
      vals := [];
      while |vals| < |deps|
        invariant Wired(tasks) && keys == old(keys) && table == old(table)
        invariant Progress(old(tasks), tasks) && Monotone(old(tasks), tasks) && Untouched(old(tasks), tasks, i)
        invariant |vals| <= |deps| && tasks[i] == old(tasks[i])
        invariant forall m | 0 <= m < |vals| :: Settled(tasks, deps[m]) && Shown(tasks[deps[m]]) == vals[m]
        invariant EvalKept(old(tasks), tasks) && vals == Args(old(tasks), deps[..|vals|], i)
        decreases |deps| - |vals|
      {
        ghost var before := tasks;
        var v := GetValue(deps[|vals|]);
        FetchedStep(old(tasks), before, tasks, i, vals, v);
        EvalFetched(old(tasks), before, tasks, i, vals, v);
        vals := vals + [v];
      }
      assert deps[..|vals|] == deps;
    }

    /** `TaskNode.get_value`: the top override if there is one; otherwise a
        dirty lazy or cached node is computed first; then the stored result.
        The value returned is what `Eval` gives in the state the call starts
        in, every node still reports what it did, and afterwards the node
        is settled and shows the value returned. */
    method GetValue(i: nat) returns (r: Option<V>)
      requires Wired(tasks) && i < |tasks|
      modifies this
      ensures Wired(tasks) && keys == old(keys) && table == old(table)
      ensures Progress(old(tasks), tasks) && Untouched(old(tasks), tasks, i) && Monotone(old(tasks), tasks)
      ensures Settled(tasks, i) && r == Shown(tasks[i])
      ensures EvalKept(old(tasks), tasks) && r == Eval(old(tasks), i)
      ensures !Stale(old(tasks[i])) ==> r == Shown(old(tasks[i])) && tasks == old(tasks)
      decreases i, 1
    {
      var t := tasks[i];
      if |t.overrides| > 0 {
        return t.overrides[|t.overrides| - 1];
      }
      if t.isDirty && (t.spec.mode == Lazy || t.spec.mode == Cached) {
        var _ := Compute(i, false);
        if Blocked(tasks, i) {
          BlockedSettles(tasks, i);
        }
      }
      return tasks[i].result;
    }

    /** `TaskNode.set_value`: refused unless the node is settable;
        otherwise the value is stored, the node marked computed and clean,
        and everything downstream of it marked dirty. */
    method SetValue(i: nat, value: Option<V>) returns (r: Result<(), Error>)
      requires Valid() && i < |tasks|
      modifies this
      ensures Valid() && keys == old(keys) && table == old(table)
      ensures !old(tasks[i]).spec.canSet ==> r.Failure? && r.error.ValueError? && tasks == old(tasks)
      ensures old(tasks[i]).spec.canSet ==>
                r == Success(()) &&
                tasks == Dirtied(old(tasks)[i := Computed(old(tasks[i]), value)], Below(old(tasks), i))
    {
      if !tasks[i].spec.canSet {
        return Failure(ValueError("Cannot set value on immutable node '" + tasks[i].spec.name + "'"));
      }
      tasks := tasks[i := Computed(tasks[i], value)];
      Relabelled(old(tasks), i, tasks[i]);
      MarkDependentsDirty(i);
      DirtiedValid(old(tasks), old(tasks)[i := Computed(old(tasks[i]), value)], Below(old(tasks), i), keys, table);
      return Success(());
    }

    /** Entering `override`: pushes the value and marks everything
        downstream dirty. */
    method OverrideEnter(i: nat, temp: Option<V>)
      requires Valid() && i < |tasks|
      modifies this
      ensures Valid() && keys == old(keys) && table == old(table)
      ensures tasks == Dirtied(old(tasks)[i := old(tasks[i]).(overrides := old(tasks[i]).overrides + [temp])],
                               Below(old(tasks), i))
    {
      tasks := tasks[i := tasks[i].(overrides := tasks[i].overrides + [temp])];
      Relabelled(old(tasks), i, tasks[i]);
      MarkDependentsDirty(i);
      DirtiedValid(old(tasks), old(tasks)[i := old(tasks[i]).(overrides := old(tasks[i]).overrides + [temp])],
                   Below(old(tasks), i), keys, table);
    }

    /** Leaving `override`: pops the stack (an error when a reset emptied
        it) and marks everything downstream dirty. */
    method OverrideExit(i: nat) returns (r: Result<(), Error>)
      requires Valid() && i < |tasks|
      modifies this
      ensures Valid() && keys == old(keys) && table == old(table)
      ensures |old(tasks[i]).overrides| == 0 ==> r.Failure? && r.error.IndexError? && tasks == old(tasks)
      ensures |old(tasks[i]).overrides| > 0 ==>
                r == Success(()) &&
                tasks == Dirtied(old(tasks)[i := old(tasks[i]).(overrides := Pop(old(tasks[i]).overrides))],
                                 Below(old(tasks), i))
    {
      if |tasks[i].overrides| == 0 {
        return Failure(IndexError("pop from empty list"));
      }
      tasks := tasks[i := tasks[i].(overrides := Pop(tasks[i].overrides))];
      Relabelled(old(tasks), i, tasks[i]);
      MarkDependentsDirty(i);
      DirtiedValid(old(tasks), old(tasks)[i := old(tasks[i]).(overrides := Pop(old(tasks[i]).overrides))],
                   Below(old(tasks), i), keys, table);
      return Success(());
    }

    /** `TaskNode.mark_dirty`: the node and everything downstream of it. */
    method MarkDirty(i: nat)
      requires Wired(tasks) && i < |tasks|
      modifies this
      ensures Wired(tasks) && keys == old(keys) && table == old(table)
      ensures tasks == Dirtied(old(tasks), Reachability.Downstream(Graph(old(tasks)), i))
      decreases |tasks| - i, 2
    {
      ghost var before := tasks;
      if !tasks[i].isDirty {
        tasks := tasks[i := tasks[i].(isDirty := true)];
      }
      assert tasks == Dirtied(before, {i});
      DirtiedGraph(before, {i});
      WiredKept(before, tasks);
      MarkDependentsDirty(i);
      DirtiedTwice(before, {i}, Below(before, i));
    }

    /** `TaskNode.mark_dependents_dirty`: `mark_dirty` on each dependent in
        turn. */
    method MarkDependentsDirty(i: nat)
      requires Wired(tasks) && i < |tasks|
      modifies this
      ensures Wired(tasks) && keys == old(keys) && table == old(table)
      ensures tasks == Dirtied(old(tasks), Below(old(tasks), i))
      decreases |tasks| - i, 1
    {
      ghost var g := Graph(tasks);
      var ds := tasks[i].dependents;
      assert Reachability.Forward(g) && ds == g[i];
      assert forall m | 0 <= m < |ds| :: i < ds[m] < |g|;
      Reachability.ReachAll(g, i, ds);
      var k := 0;
      while k < |ds|
        invariant k <= |ds| && Wired(tasks) && keys == old(keys) && table == old(table)
        invariant |tasks| == |g| && Graph(tasks) == g
        invariant tasks == Dirtied(old(tasks), Reachability.Reach(g, i, ds[..k]))
      {
        MarkNext(i, ds, k, old(tasks), g);
        k := k + 1;
      }
    }

    /** One turn of `mark_dependents_dirty`'s loop: `mark_dirty` on the
        `k`-th dependent adds its downstream to what is marked. */
    method MarkNext(i: nat, ds: seq<nat>, k: nat, ghost start: seq<Task<V>>, ghost g: seq<seq<nat>>)
      requires Wired(tasks) && |tasks| == |g| && Graph(tasks) == g && i < |g|
      requires k < |ds| && forall m | 0 <= m < |ds| :: i < ds[m] < |g|
      requires |start| == |g| && tasks == Dirtied(start, Reachability.Reach(g, i, ds[..k]))
      modifies this
      ensures Wired(tasks) && keys == old(keys) && table == old(table)
      ensures |tasks| == |g| && Graph(tasks) == g
      ensures tasks == Dirtied(start, Reachability.Reach(g, i, ds[..k + 1]))
      decreases |tasks| - i, 0
    {
      ghost var before := tasks;
      MarkDirty(ds[k]);
      MarkedStep(start, before, tasks, g, i, ds, k);
    }

    /** `TaskNode.reset`. */
    method ResetTask(i: nat)
      requires Valid() && i < |tasks|
      modifies this
      ensures Valid() && keys == old(keys) && table == old(table)
      ensures tasks == old(tasks)[i := Cleared(old(tasks[i]))]
    {
      if tasks[i].isComputed {
        tasks := tasks[i := tasks[i].(isComputed := false, isDirty := true, overrides := [])];
      }
      ClearedValid(old(tasks), i, keys, table);
    }

    /** `DAGRegistry.reset`: every registered node is reset. */
    method Reset()
      requires Valid()
      modifies this
      ensures Valid() && keys == old(keys) && table == old(table) && |tasks| == |old(tasks)|
      ensures forall j | 0 <= j < |tasks| :: tasks[j] == if j in table.Values then Cleared(old(tasks[j])) else old(tasks[j])
    {
      var p := 0;
      ghost var done: set<nat> := {};
      assert tasks == ClearedAll(old(tasks), done);
      while p < |keys|
        invariant p <= |keys| && Valid() && keys == old(keys) && table == old(table)
        invariant done == Slots(table, keys[..p])
        invariant tasks == ClearedAll(old(tasks), done)
      {
        var j := table[keys[p]];
        ClearedAllStep(old(tasks), done, j);
        SlotsStep(table, keys, p);
        ResetTask(j);
        done := done + {j};
        p := p + 1;
      }
      SlotsAll(tasks, keys, table);
    }

    /** The dependency graph over key positions, as `_build_graph` walks it:
        each registered node, each of its dependencies by name. A name that
        is not a key is a KeyError. */
    method NameGraph() returns (r: Result<seq<seq<nat>>, Error>)
      requires Valid()
      ensures r.Success? <==> AllRegistered(tasks, keys, table)
      ensures r.Success? ==> r.value == PositionDeps(tasks, keys, table)
      ensures r.Failure? ==> r.error.KeyError? && r.error.key !in table
    {
      var deps: seq<seq<nat>> := [];
      var p := 0;
      while p < |keys|
        invariant p <= |keys| && |deps| == p
        invariant forall q | 0 <= q < p :: RowRegistered(tasks, table, keys[q])
        invariant forall q | 0 <= q < p :: deps[q] == PositionRow(tasks, keys, table, keys[q])
      {
        var row := DepRow(keys[p]);
        if row.Failure? {
          return Failure(row.error);
        }
        deps := deps + [row.value];
        p := p + 1;
      }
      return Success(deps);
    }

    /** The key positions of one node's dependencies. */
    method DepRow(n: string) returns (r: Result<seq<nat>, Error>)
      requires Valid() && n in table
      ensures r.Success? <==> RowRegistered(tasks, table, n)
      ensures r.Success? ==> r.value == PositionRow(tasks, keys, table, n)
      ensures r.Failure? ==> r.error.KeyError? && r.error.key !in table
    {
      var ds := tasks[table[n]].spec.dependencies;
      ghost var ns := DepNames(tasks, table, n);
      var row: seq<nat> := [];
      while |row| < |ds|
        invariant |row| <= |ds|
        invariant forall k | 0 <= k < |row| :: ns[k] in keys && row[k] == IndexOf(keys, ns[k])
      {
        var name := tasks[ds[|row|]].spec.name;
        if name !in table {
          assert name == ns[|row|];
          return Failure(KeyError(name));
        }
        row := row + [IndexOf(keys, name)];
      }
      assert RowRegistered(tasks, table, n) by {
        forall d | d in ns ensures d in table {
          var k :| 0 <= k < |ns| && ns[k] == d;
        }
      }
      return Success(row);
    }
  }

  function Pop<T>(s: seq<T>): seq<T>
    requires |s| > 0
  {
    s[..|s| - 1]
  }

  /** Leaving an override restores the stack entering it left; both mark
      the same nodes dirty. */
  lemma OverrideRestores<V>(ts: seq<Task<V>>, i: nat, temp: Option<V>, s: set<nat>)
    requires i < |ts| && i !in s
    ensures var pushed := Dirtied(ts[i := ts[i].(overrides := ts[i].overrides + [temp])], s);
            Dirtied(pushed[i := pushed[i].(overrides := Pop(pushed[i].overrides))], s) == Dirtied(ts, s)
  {
    var pushed := Dirtied(ts[i := ts[i].(overrides := ts[i].overrides + [temp])], s);
    assert Pop(pushed[i].overrides) == ts[i].overrides;
    var l := Dirtied(pushed[i := pushed[i].(overrides := Pop(pushed[i].overrides))], s);
    var r := Dirtied(ts, s);
    forall j | 0 <= j < |ts| ensures l[j] == r[j] {
      if j in s {
        assert l[j] == ts[j].(isDirty := true).(isDirty := true);
      }
    }
  }

  /** The arena with each node's dependents list taken from `g`. */
  ghost function Rewired<V>(a: seq<Task<V>>, g: seq<seq<nat>>): (r: seq<Task<V>>)
    requires |g| == |a|
    ensures |r| == |a| && forall j | 0 <= j < |a| :: r[j] == a[j].(dependents := g[j])
  {
    seq(|a|, j requires 0 <= j < |a| => a[j].(dependents := g[j]))
  }

  /** Taking the dependents lists the arena already has changes nothing. */
  lemma RewiredSame<V>(a: seq<Task<V>>)
    ensures Rewired(a, Graph(a)) == a
  {
    var r := Rewired(a, Graph(a));
    forall j | 0 <= j < |a| ensures r[j] == a[j] {
    }
  }

  /** Appending to one dependents list is appending to that node's list. */
  lemma RewiredAppend<V>(a: seq<Task<V>>, g: seq<seq<nat>>, d: nat, i: nat)
    requires |g| == |a| && d < |a|
    ensures var r := Rewired(a, g);
            Rewired(a, g[d := g[d] + [i]]) == r[d := r[d].(dependents := r[d].dependents + [i])]
  {
    var r := Rewired(a, g);
    var l := Rewired(a, g[d := g[d] + [i]]);
    forall j | 0 <= j < |a| ensures l[j] == r[d := r[d].(dependents := r[d].dependents + [i])][j] {
    }
  }

  /** Creating a node keeps the arena wired and linked. */
  lemma AddedWired<V>(a: seq<Task<V>>, b: seq<Task<V>>, i: nat, deps: seq<nat>)
    requires Wired(a) && Linked(a) && i == |a| && |b| == i + 1
    requires forall k | 0 <= k < |deps| :: deps[k] < i
    requires b[i].spec.dependencies == deps && b[i].dependents == []
    requires forall j | 0 <= j < i ::
               b[j] == a[j].(dependents := a[j].dependents + Reachability.Copies(i, TopoSort.Occ(j, deps)))
    ensures Wired(b) && Linked(b)
  {
    AddedForward(a, b, i, deps);
    AddedLinked(a, b, i, deps);
  }

  lemma AddedForward<V>(a: seq<Task<V>>, b: seq<Task<V>>, i: nat, deps: seq<nat>)
    requires Wired(a) && i == |a| && |b| == i + 1
    requires forall k | 0 <= k < |deps| :: deps[k] < i
    requires b[i].spec.dependencies == deps && b[i].dependents == []
    requires forall j | 0 <= j < i ::
               b[j] == a[j].(dependents := a[j].dependents + Reachability.Copies(i, TopoSort.Occ(j, deps)))
    ensures Wired(b)
  {
    var g := Graph(b);
    forall j, k | 0 <= j < |b| && 0 <= k < |g[j]| ensures j < g[j][k] < |g| {
      if j < i {
        var old_ds := a[j].dependents;
        assert Graph(a)[j] == old_ds;
        assert g[j] == old_ds + Reachability.Copies(i, TopoSort.Occ(j, deps));
        if k >= |old_ds| {
          assert g[j][k] == i;
        } else {
          assert g[j][k] == old_ds[k];
        }
      }
    }
    forall j | 0 <= j < |b| ensures forall k | 0 <= k < |b[j].spec.dependencies| :: b[j].spec.dependencies[k] < j {
      if j < i {
        assert b[j].spec == a[j].spec;
      }
    }
  }

  lemma AddedLinked<V>(a: seq<Task<V>>, b: seq<Task<V>>, i: nat, deps: seq<nat>)
    requires Wired(a) && Linked(a) && i == |a| && |b| == i + 1
    requires forall k | 0 <= k < |deps| :: deps[k] < i
    requires b[i].spec.dependencies == deps && b[i].dependents == []
    requires forall j | 0 <= j < i ::
               b[j] == a[j].(dependents := a[j].dependents + Reachability.Copies(i, TopoSort.Occ(j, deps)))
    ensures Linked(b)
  {
    forall j, m | 0 <= j < |b| && 0 <= m < |b| ensures j in b[m].spec.dependencies <==> m in b[j].dependents {
      if j < i {
        var old_ds := a[j].dependents;
        var extra := Reachability.Copies(i, TopoSort.Occ(j, deps));
        assert b[j].dependents == old_ds + extra;
        assert m in b[j].dependents <==> m in old_ds || m in extra;
        if m < i {
          assert b[m].spec == a[m].spec;
          assert m !in extra;
        } else {
          assert i !in old_ds by {
            assert Graph(a)[j] == old_ds;
          }
          assert i in extra <==> TopoSort.Occ(j, deps) > 0;
        }
      } else if m < i {
        assert b[m].spec == a[m].spec;
        assert forall k | 0 <= k < |a[m].spec.dependencies| :: a[m].spec.dependencies[k] < m;
      }
    }
  }

  // -- the eager phase -----------------------------------------------------------

  /** The eager phase's turn at node `j`, from `before` to `after`. An eager
      node not yet computed fetches its dependencies' values, as `Eval`
      gives them in `before`: if one is None it stays as it was, otherwise
      it is computed at its function of them. Any other node is passed
      over. Besides `j` only nodes `get_value` computes change. */
  ghost predicate EagerTurn<V>(before: seq<Task<V>>, after: seq<Task<V>>, j: nat)
    requires Wired(before) && j < |before|
  {
    var t := before[j];
    var args := Args(before, t.spec.dependencies, j);
    SameShape(before, after) && Monotone(before, after) && OnlyStale(before, after, j) &&
    if t.spec.mode != Eager || t.isComputed then after == before
    else if HasNone(args) then after[j] == t
    else after[j] == Computed(t, t.spec.func(Values(args)))
  }

  /** The eager phase took its first `n` turns over the names `order`,
      from `start`, with arenas `trace`: turn `m` is at the node named
      `order[m]`. An eager node keeps the state its own turn left it in,
      and one no name among those turns stands for is never touched. */
  ghost predicate EagerRun<V>(start: seq<Task<V>>, table: map<string, nat>, order: seq<string>, n: nat,
                              trace: seq<seq<Task<V>>>)
  {
    n <= |order| && |trace| == n + 1 && trace[0] == start &&
    (forall m | 0 <= m < |order| :: order[m] in table && table[order[m]] < |start|) &&
    (forall m | 0 <= m <= n :: Wired(trace[m]) && |trace[m]| == |start|) &&
    (forall m {:trigger order[m]} | 0 <= m < n :: EagerTurn(trace[m], trace[m + 1], table[order[m]])) &&
    (forall m {:trigger order[m]} | 0 <= m < n && start[table[order[m]]].spec.mode == Eager ::
       trace[m][table[order[m]]] == start[table[order[m]]] &&
       trace[n][table[order[m]]] == trace[m + 1][table[order[m]]]) &&
    (forall x | 0 <= x < |start| && start[x].spec.mode == Eager && forall m | 0 <= m < n :: table[order[m]] != x ::
       trace[n][x] == start[x])
  }

  /** No turn taken yet. */
  lemma EagerRunNone<V>(start: seq<Task<V>>, table: map<string, nat>, order: seq<string>)
    requires Wired(start) && forall m | 0 <= m < |order| :: order[m] in table && table[order[m]] < |start|
    ensures EagerRun(start, table, order, 0, [start])
  {
  }

  /** One more turn of the eager phase, at a node no other name in `order`
      stands for. */
  lemma EagerRunStep<V>(start: seq<Task<V>>, table: map<string, nat>, order: seq<string>, k: nat,
                        trace: seq<seq<Task<V>>>, after: seq<Task<V>>)
    requires k < |order| && EagerRun(start, table, order, k, trace) && SameShape(start, trace[k])
    requires forall m | 0 <= m < |order| && m != k :: table[order[m]] != table[order[k]]
    requires start[table[order[k]]].spec.mode == Eager ==> trace[k][table[order[k]]] == start[table[order[k]]]
    requires Wired(after) && EagerTurn(trace[k], after, table[order[k]])
    ensures EagerRun(start, table, order, k + 1, trace + [after])
    ensures forall m | k < m < |order| && start[table[order[m]]].spec.mode == Eager ::
              after[table[order[m]]] == trace[k][table[order[m]]]
  {
    var t := trace + [after];
    forall m | 0 <= m < k + 1 && start[table[order[m]]].spec.mode == Eager
      ensures t[m][table[order[m]]] == start[table[order[m]]] && t[k + 1][table[order[m]]] == t[m + 1][table[order[m]]]
    {
      if m < k {
        assert trace[k][table[order[m]]].spec == start[table[order[m]]].spec;
      }
    }
  }

  // -- the DAG -------------------------------------------------------------------

  /** The DAG over a registry: Kahn's order and the once-only eager phase. */
  class Dag<V(!new)> {
    const registry: Registry<V>
    var eagerExecuted: bool

    ghost predicate Valid()
      reads this, registry
    {
      registry.Valid()
    }

    constructor(registry: Registry<V>)
      ensures this.registry == registry && !eagerExecuted
    {
      this.registry := registry;
      eagerExecuted := false;
    }

    /** `_topological_sort`: a dependency name that is not registered is a
        KeyError; otherwise the sort succeeds exactly when the name graph
        has no cycle, and then lists every key once, each after its
        dependencies. A cycle is a ValueError. */
    method TopologicalSort() returns (r: Result<seq<string>, Error>)
      requires Valid()
      ensures !AllRegistered(registry.tasks, registry.keys, registry.table) ==>
                r.Failure? && r.error.KeyError? && r.error.key !in registry.table
      ensures AllRegistered(registry.tasks, registry.keys, registry.table) ==>
                (r.Success? <==> !Cyclic(registry.tasks, registry.keys, registry.table))
      ensures r.Failure? ==> (r.error.KeyError? <==> !AllRegistered(registry.tasks, registry.keys, registry.table))
      ensures r.Failure? && !r.error.KeyError? ==> r.error.ValueError?
      ensures r.Success? ==> SortedNames(registry.tasks, registry.keys, registry.table, r.value)
    {
      var g := registry.NameGraph();
      if g.Failure? {
        return Failure(g.error);
      }
      var deps := g.value;
      var adj, indeg := TopoSort.BuildGraph(deps);
      var start := TopoSort.Sources(indeg, |indeg|);
      var sorted := TopoSort.Kahn(deps, adj, indeg, start);
      var keys := registry.keys;
      TopoSort.CompleteUnlessStuck(deps, start, sorted);
      if |sorted| != |keys| {
        return Failure(ValueError("Cycle detected in graph"));
      }
      var order := seq(|sorted|, k requires 0 <= k < |sorted| => keys[sorted[k]]);
      SortedOrder(registry.tasks, keys, registry.table, sorted, order);
      return Success(order);
    }

    /** `run_eager_nodes`: once the eager phase has run it does nothing
        until `reset`. A KeyError from the sort propagates; a ValueError
        (a cycle) is logged and leaves everything as it was. Otherwise
        the registry's names are visited in topological order, `order`, and
        each eager node not yet computed is computed from its dependencies'
        values; `trace` holds the arena before each turn and after the last.
        Then the phase is recorded as done. */
    method RunEagerNodes() returns (r: Result<(), Error>, ghost order: seq<string>, ghost trace: seq<seq<Task<V>>>)
      requires Valid()
      modifies this, registry
      ensures Valid() && registry.keys == old(registry.keys) && registry.table == old(registry.table)
      ensures SameShape(old(registry.tasks), registry.tasks) && Monotone(old(registry.tasks), registry.tasks)
      ensures r.Success? ==> EagerRun(old(registry.tasks), registry.table, order, |order|, trace) && registry.tasks == trace[|order|]
      ensures old(eagerExecuted) ==> r == Success(()) && eagerExecuted && order == [] && registry.tasks == old(registry.tasks)
      ensures !old(eagerExecuted) ==>
                if !old(AllRegistered(registry.tasks, registry.keys, registry.table)) then
                  r.Failure? && r.error.KeyError? && !eagerExecuted && registry.tasks == old(registry.tasks)
                else if old(Cyclic(registry.tasks, registry.keys, registry.table)) then
                  r == Success(()) && !eagerExecuted && order == [] && registry.tasks == old(registry.tasks)
                else
                  r == Success(()) && eagerExecuted &&
                  SortedNames(old(registry.tasks), registry.keys, registry.table, order)
    {
      order, trace := [], [registry.tasks];
      if eagerExecuted {
        return Success(()), order, trace;
      }
      var sorted := TopologicalSort();
      if sorted.Failure? {
        if sorted.error.ValueError? {
          return Success(()), order, trace;
        }
        return Failure(sorted.error), order, trace;
      }
      var names := sorted.value;
      order := names;
      EagerRunNone(registry.tasks, registry.table, order);
      var k := 0;
      while k < |names|
        invariant k <= |order| && Valid() && !eagerExecuted
        invariant registry.keys == old(registry.keys) && registry.table == old(registry.table)
        invariant SameShape(old(registry.tasks), registry.tasks) && Monotone(old(registry.tasks), registry.tasks)
        invariant forall m | 0 <= m < |order| :: order[m] in registry.table
        invariant EagerRun(old(registry.tasks), registry.table, order, k, trace) && registry.tasks == trace[k]
        invariant forall m | k <= m < |order| && old(registry.tasks)[registry.table[order[m]]].spec.mode == Eager ::
                    registry.tasks[registry.table[order[m]]] == old(registry.tasks)[registry.table[order[m]]]
      {
        var node := registry.table[names[k]];
        ghost var before := registry.tasks;
        EagerStep(node);
        ShapeTrans(old(registry.tasks), before, registry.tasks);
        assert forall m | 0 <= m < |order| && m != k :: registry.table[order[m]] != node by {
          forall m | 0 <= m < |order| && m != k ensures registry.table[order[m]] != node {
            assert registry.tasks[registry.table[order[m]]].spec.name == order[m];
          }
        }
        EagerRunStep(old(registry.tasks), registry.table, order, k, trace, registry.tasks);
        trace := trace + [registry.tasks];
        k := k + 1;
      }
      eagerExecuted := true;
      return Success(()), order, trace;
    }

    /** One turn of `run_eager_nodes`' loop: an eager node not yet computed
        is computed. */
    method EagerStep(node: nat)
      requires Valid() && node < |registry.tasks|
      modifies registry
      ensures Valid() && registry.keys == old(registry.keys) && registry.table == old(registry.table)
      ensures Monotone(old(registry.tasks), registry.tasks)
      ensures EagerTurn(old(registry.tasks), registry.tasks, node)
    {
      var t := registry.tasks[node];
      if t.spec.mode == Eager && !t.isComputed {
        var _ := registry.Compute(node, false);
        ValidKept(old(registry.tasks), registry.tasks, registry.keys, registry.table);
      }
    }

    /** `get_node_value`: an unknown name is a ValueError; otherwise the
        node's `get_value`. */
    method GetNodeValue(name: string) returns (r: Result<Option<V>, Error>)
      requires Valid()
      modifies registry
      ensures Valid() && registry.keys == old(registry.keys) && registry.table == old(registry.table)
      ensures name !in registry.table ==> r.Failure? && r.error.ValueError? && registry.tasks == old(registry.tasks)
      ensures name in registry.table ==>
                r.Success? && Progress(old(registry.tasks), registry.tasks) &&
                Settled(registry.tasks, registry.table[name]) &&
                r.value == Shown(registry.tasks[registry.table[name]]) &&
                EvalKept(old(registry.tasks), registry.tasks) &&
                r.value == Eval(old(registry.tasks), registry.table[name])
    {
      if name !in registry.table {
        return Failure(ValueError("Node '" + name + "' not found in DAG"));
      }
      var v := registry.GetValue(registry.table[name]);
      return Success(v);
    }

    /** `execute`: an unknown target is a ValueError; otherwise the eager
        phase runs (its KeyError propagates), taking the turns `trace` over
        the names `order`, and the target's value is fetched: what `Eval`
        gives it in the arena the eager phase leaves. */
    method Execute(target: string) returns (r: Result<Option<V>, Error>, ghost order: seq<string>,
                                            ghost trace: seq<seq<Task<V>>>)
      requires Valid()
      modifies this, registry
      ensures Valid() && registry.keys == old(registry.keys) && registry.table == old(registry.table)
      ensures target !in registry.table ==>
                r.Failure? && r.error.ValueError? && registry.tasks == old(registry.tasks) &&
                eagerExecuted == old(eagerExecuted)
      ensures target in registry.table && (old(eagerExecuted) || old(AllRegistered(registry.tasks, registry.keys, registry.table))) ==>
                r.Success? && EagerRun(old(registry.tasks), registry.table, order, |order|, trace) &&
                EvalKept(trace[|order|], registry.tasks) &&
                r.value == Eval(trace[|order|], registry.table[target]) &&
                Settled(registry.tasks, registry.table[target]) &&
                r.value == Shown(registry.tasks[registry.table[target]])
      ensures target in registry.table && old(eagerExecuted) ==> order == []
      ensures target in registry.table && !old(eagerExecuted) && old(AllRegistered(registry.tasks, registry.keys, registry.table)) ==>
                if old(Cyclic(registry.tasks, registry.keys, registry.table)) then order == [] && !eagerExecuted
                else eagerExecuted && SortedNames(old(registry.tasks), registry.keys, registry.table, order)
      ensures target in registry.table && !old(eagerExecuted) && !old(AllRegistered(registry.tasks, registry.keys, registry.table)) ==>
                r.Failure? && r.error.KeyError?
    {
      order, trace := [], [registry.tasks];
      if target !in registry.table {
        return Failure(ValueError("Target node '" + target + "' not found in DAG")), order, trace;
      }
      var ran;
      ran, order, trace := RunEagerNodes();
      if ran.Failure? {
        return Failure(ran.error), order, trace;
      }
      r := GetNodeValue(target);
    }

    /** `DAG.reset`: the registry's nodes are reset and the eager phase may
        run again. */
    method Reset()
      requires Valid()
      modifies this, registry
      ensures Valid() && registry.keys == old(registry.keys) && registry.table == old(registry.table)
      ensures !eagerExecuted && |registry.tasks| == |old(registry.tasks)|
      ensures forall j | 0 <= j < |registry.tasks| ::
                registry.tasks[j] == if j in registry.table.Values then Cleared(old(registry.tasks[j])) else old(registry.tasks[j])
    {
      registry.Reset();
      eagerExecuted := false;
    }
  }

  /** The key listing Kahn's order gives is a topological order of names. */
  lemma SortedOrder<V>(ts: seq<Task<V>>, keys: seq<string>, table: map<string, nat>,
                       sorted: seq<nat>, order: seq<string>)
    requires Wired(ts) && Named(ts, keys, table) && AllRegistered(ts, keys, table)
    requires TopoSort.Distinct(sorted) && TopoSort.Nodes(sorted, |keys|) && |sorted| == |keys|
    requires TopoSort.Ordered(PositionDeps(ts, keys, table), sorted)
    requires forall v: nat | v < |keys| :: v in sorted
    requires |order| == |sorted| && forall k | 0 <= k < |sorted| :: order[k] == keys[sorted[k]]
    ensures SortedNames(ts, keys, table, order)
  {
    var deps := PositionDeps(ts, keys, table);
    forall a, b | 0 <= a < b < |order| ensures order[a] != order[b] {
      assert sorted[a] != sorted[b];
    }
    forall n | n in table ensures n in order {
      var p :| 0 <= p < |keys| && keys[p] == n;
      assert p in sorted;
      var k :| 0 <= k < |sorted| && sorted[k] == p;
      assert order[k] == n;
    }
    forall i | 0 <= i < |order| ensures order[i] in table && forall d | d in DepNames(ts, table, order[i]) :: d in order[..i] {
      var p := sorted[i];
      assert keys[p] in keys;
      forall d | d in DepNames(ts, table, order[i]) ensures d in order[..i] {
        var k :| 0 <= k < |DepNames(ts, table, keys[p])| && DepNames(ts, table, keys[p])[k] == d;
        PositionEntry(ts, keys, table, p, k);
        var x := deps[p][k];
        assert x in deps[sorted[i]];
        assert x in sorted[..i];
        var m :| 0 <= m < i && sorted[m] == x;
        assert order[m] == d;
        assert order[..i][m] == d;
      }
    }
  }
}
