/** The dynamic lazy graph: ReactiveNodes that recompute on demand while
    dirty, dirty-marking along the dependents lists, override stacks, and
    the WubGraph factory (inputs and the CACHED / COMPUTED node makers).

    Every ReactiveNode lives in an arena (`WubGraph.nodes`) at the position
    it was created in, with its dependents list kept alongside in
    `WubGraph.dependents`. A node's dependencies existed before it, so they
    sit at lower positions. Values are reals (the disk loader and the usage
    example only produce floats); `None` is Python's None. User functions
    are abstract total functions from the dependency values to a value or
    None.

    What `get_value` reports is given by a reference definition, `Eval`,
    over the arena; `get_value` returns `Eval` of the state it starts in
    and leaves `Eval` of every node as it was. */
module LazyGraph {
  import opened Wrappers
  import TopoSort
  import Reachability

  /** The decorator's mode; `Unknown` stands for any other value passed. */
  datatype Mode = Cached | Computed | Unknown(given: string)

  datatype Error = ValueError(message: string) | IndexError(message: string)

  datatype Date = Date(year: int, month: int, day: int)

  /** A positional argument of a decorated call: a node, or anything else. */
  datatype Arg = NodeArg(node: nat) | Plain

  type Func = seq<real> -> Option<real>

  /** A ReactiveNode without its dependents list. */
  datatype Node = Node(computeFn: Option<Func>, dependencies: seq<nat>, value: Option<real>,
                       isDirty: bool, overrides: seq<Option<real>>, canSet: bool)

  /** The top of the override stack, else the stored value. */
  function Shown(t: Node): Option<real>
  {
    if |t.overrides| > 0 then t.overrides[|t.overrides| - 1] else t.value
  }

  /** `get_value` recomputes this node: no override, a compute function,
      and dirty. */
  predicate Stale(t: Node)
  {
    |t.overrides| == 0 && t.computeFn.Some? && t.isDirty
  }

  /** Every dependency lies below its node. */
  ghost predicate Layered(ns: seq<Node>)
  {
    forall j | 0 <= j < |ns| :: forall k | 0 <= k < |ns[j].dependencies| :: ns[j].dependencies[k] < j
  }

  /** The dependency lists. */
  ghost function DepsOf(ns: seq<Node>): (r: seq<seq<nat>>)
    ensures |r| == |ns| && forall j | 0 <= j < |ns| :: r[j] == ns[j].dependencies
  {
    seq(|ns|, j requires 0 <= j < |ns| => ns[j].dependencies)
  }

  /** The value `get_value` reports for node `i`: the top override; else,
      for a dirty node with a compute function, the function applied to
      its dependencies' values, or the stored value when one of those is
      None; else the stored value. */
  ghost function Eval(ns: seq<Node>, i: nat): Option<real>
    requires Layered(ns) && i < |ns|
    decreases i, 1
  {
    var t := ns[i];
    if |t.overrides| > 0 then t.overrides[|t.overrides| - 1]
    else if t.computeFn.Some? && t.isDirty then
      var args := Args(ns, t.dependencies, i);
      if None in args then t.value else t.computeFn.value(Unwrap(args))
    else t.value
  }

  /** The values of the nodes `ds`, all below `bound`. */
  ghost function Args(ns: seq<Node>, ds: seq<nat>, bound: nat): (r: seq<Option<real>>)
    requires Layered(ns) && bound <= |ns|
    requires forall k | 0 <= k < |ds| :: ds[k] < bound
    ensures |r| == |ds| && forall k | 0 <= k < |ds| :: r[k] == Eval(ns, ds[k])
    decreases bound, 0, |ds|
  {
    if |ds| == 0 then []
    else
      var r := Args(ns, ds[..|ds| - 1], bound) + [Eval(ns, ds[|ds| - 1])];
      assert forall k | 0 <= k < |ds| - 1 :: ds[..|ds| - 1][k] == ds[k];
      r
  }

  /** The values inside a list with no None. */
  function Unwrap(args: seq<Option<real>>): (r: seq<real>)
    requires None !in args
    ensures |r| == |args| && forall k | 0 <= k < |args| :: args[k] == Some(r[k])
  {
    if |args| == 0 then []
    else
      var last := args[|args| - 1];
      assert last in args && forall k | 0 <= k < |args| - 1 :: args[..|args| - 1][k] == args[k];
      Unwrap(args[..|args| - 1]) + [last.value]
  }

  /** Same nodes with the same compute functions, dependencies and
      settability. */
  ghost predicate SameWiring(a: seq<Node>, b: seq<Node>)
  {
    |a| == |b| &&
    forall j | 0 <= j < |a| ::
      a[j].computeFn == b[j].computeFn && a[j].dependencies == b[j].dependencies && a[j].canSet == b[j].canSet
  }

  /** Same wiring and the same override stacks: only values and dirty
      flags may differ. */
  ghost predicate SameShape(a: seq<Node>, b: seq<Node>)
  {
    SameWiring(a, b) && forall j | 0 <= j < |a| :: a[j].overrides == b[j].overrides
  }

  /** Nodes from `i` up are unchanged. */
  ghost predicate Fixed(a: seq<Node>, b: seq<Node>, i: nat)
  {
    |a| == |b| && forall j | i <= j < |a| :: b[j] == a[j]
  }

  /** Only nodes that `get_value` would recompute changed. */
  ghost predicate OnlyStale(a: seq<Node>, b: seq<Node>)
  {
    |a| == |b| && forall j | 0 <= j < |a| && !Stale(a[j]) :: b[j] == a[j]
  }

  /** Every node reports the same value in both. */
  ghost predicate EvalKept(a: seq<Node>, b: seq<Node>)
    requires Layered(a) && Layered(b)
  {
    |a| == |b| && forall j | 0 <= j < |a| :: Eval(b, j) == Eval(a, j)
  }

  /** Every node of `s` marked dirty. */
  ghost function Dirtied(ns: seq<Node>, s: set<nat>): (r: seq<Node>)
  {
    seq(|ns|, j requires 0 <= j < |ns| => if j in s then ns[j].(isDirty := true) else ns[j])
  }

  /** The nodes downstream of `i` along the dependents lists, `i` itself
      excluded. */
  ghost function Below(g: seq<seq<nat>>, i: nat): set<nat>
    requires Reachability.Forward(g) && i < |g|
  {
    Reachability.Reach(g, i, g[i])
  }

  // -- facts about Eval --------------------------------------------------------

  lemma WiringLayered(a: seq<Node>, b: seq<Node>)
    requires Layered(a) && SameWiring(a, b)
    ensures Layered(b) && DepsOf(b) == DepsOf(a)
  {
    assert forall j | 0 <= j < |a| :: b[j].dependencies == a[j].dependencies;
  }

  lemma DirtiedShape(ns: seq<Node>, s: set<nat>)
    ensures SameShape(ns, Dirtied(ns, s))
  {
  }

  lemma DirtiedTwice(ns: seq<Node>, a: set<nat>, b: set<nat>)
    ensures Dirtied(Dirtied(ns, a), b) == Dirtied(ns, a + b)
  {
    var l := Dirtied(Dirtied(ns, a), b);
    var r := Dirtied(ns, a + b);
    forall j | 0 <= j < |ns| ensures l[j] == r[j] {
      if j in a && j in b {
        assert l[j] == ns[j].(isDirty := true).(isDirty := true);
      }
    }
  }

  /** A node reports the same value in two arenas when it is the same node
      there and its dependencies report the same values. */
  lemma EvalLocal(a: seq<Node>, b: seq<Node>, j: nat)
    requires Layered(a) && Layered(b) && j < |a| && j < |b| && a[j] == b[j]
    requires forall k | 0 <= k < |a[j].dependencies| :: Eval(a, a[j].dependencies[k]) == Eval(b, a[j].dependencies[k])
    ensures Eval(a, j) == Eval(b, j)
  {
    var ds := a[j].dependencies;
    assert Args(a, ds, j) == Args(b, ds, j);
  }

  /** What a node reports depends only on the nodes at or below it. */
  lemma {:induction false} EvalBelow(a: seq<Node>, b: seq<Node>, j: nat)
    requires Layered(a) && Layered(b) && j < |a| && j < |b|
    requires forall k | 0 <= k <= j :: a[k] == b[k]
    ensures Eval(a, j) == Eval(b, j)
    decreases j
  {
    var ds := a[j].dependencies;
    forall k | 0 <= k < |ds| ensures Eval(a, ds[k]) == Eval(b, ds[k]) {
      EvalBelow(a, b, ds[k]);
    }
    EvalLocal(a, b, j);
  }

  /** Changing one node without changing what it reports changes what no
      node reports. */
  lemma {:induction false} EvalAgree(a: seq<Node>, b: seq<Node>, i: nat, j: nat)
    requires Layered(a) && Layered(b) && |a| == |b| && i < |a| && j < |a|
    requires forall m | 0 <= m < |a| && m != i :: a[m] == b[m]
    requires Eval(a, i) == Eval(b, i)
    ensures Eval(a, j) == Eval(b, j)
    decreases j
  {
    if j != i {
      var ds := a[j].dependencies;
      forall k | 0 <= k < |ds| ensures Eval(a, ds[k]) == Eval(b, ds[k]) {
        EvalAgree(a, b, i, ds[k]);
      }
      EvalLocal(a, b, j);
    }
  }

  /** One more dependency fetched by `recompute`. */
  lemma FetchedStep(start: seq<Node>, before: seq<Node>, after: seq<Node>, i: nat,
                    deps: seq<nat>, vals: seq<Option<real>>, v: Option<real>)
    requires Layered(start) && Layered(before) && Layered(after) && i < |start|
    requires deps == start[i].dependencies && |vals| < |deps|
    requires SameShape(start, before) && OnlyStale(start, before) && Fixed(start, before, i)
    requires EvalKept(start, before) && vals == Args(start, deps[..|vals|], i)
    requires SameShape(before, after) && OnlyStale(before, after) && Fixed(before, after, deps[|vals|] + 1)
    requires EvalKept(before, after) && v == Eval(before, deps[|vals|])
    ensures SameShape(start, after) && OnlyStale(start, after) && Fixed(start, after, i)
    ensures EvalKept(start, after) && vals + [v] == Args(start, deps[..|vals| + 1], i)
  {
    var k := |vals|;
    assert deps[..k + 1][..k] == deps[..k];
  }

  /** Two arenas that agree below `bound` give the same values to nodes
      below it. */
  lemma ArgsBelow(a: seq<Node>, b: seq<Node>, ds: seq<nat>, bound: nat)
    requires Layered(a) && Layered(b) && bound <= |a| && bound <= |b|
    requires forall k | 0 <= k < bound :: a[k] == b[k]
    requires forall k | 0 <= k < |ds| :: ds[k] < bound
    ensures Args(a, ds, bound) == Args(b, ds, bound)
  {
    forall k | 0 <= k < |ds| ensures Eval(a, ds[k]) == Eval(b, ds[k]) {
      EvalBelow(a, b, ds[k]);
    }
  }

  /** Storing what a stale node `i` computes from its dependencies' values,
      and marking it clean, changes what no node reports. */
  lemma StoreComputed(mid: seq<Node>, i: nat, vals: seq<Option<real>>)
    requires Layered(mid) && i < |mid| && mid[i].computeFn.Some?
    requires vals == Args(mid, mid[i].dependencies, i) && None !in vals
    ensures var after := mid[i := mid[i].(value := mid[i].computeFn.value(Unwrap(vals)), isDirty := false)];
            Layered(after) && SameShape(mid, after) && (forall j | 0 <= j < i :: Eval(after, j) == Eval(mid, j)) &&
            (Stale(mid[i]) ==> EvalKept(mid, after))
  {
    var after := mid[i := mid[i].(value := mid[i].computeFn.value(Unwrap(vals)), isDirty := false)];
    WiringLayered(mid, after);
    forall j | 0 <= j < i ensures Eval(after, j) == Eval(mid, j) {
      EvalBelow(mid, after, j);
    }
    if Stale(mid[i]) {
      ArgsBelow(mid, after, mid[i].dependencies, i);
      forall j | 0 <= j < |after| ensures Eval(after, j) == Eval(mid, j) {
        EvalAgree(mid, after, i, j);
      }
    }
  }

  /** Storing the computed value at `i` once its dependencies are fetched. */
  lemma ComputedStep(start: seq<Node>, mid: seq<Node>, after: seq<Node>, i: nat, vals: seq<Option<real>>)
    requires Layered(start) && Layered(mid) && i < |mid|
    requires SameShape(start, mid) && OnlyStale(start, mid) && Fixed(start, mid, i) && EvalKept(start, mid)
    requires mid[i].computeFn.Some?
    requires vals == Args(start, start[i].dependencies, i) && None !in vals
    requires after == mid[i := mid[i].(value := mid[i].computeFn.value(Unwrap(vals)), isDirty := false)]
    ensures Layered(after) && SameShape(start, after) && Fixed(start, after, i + 1)
    ensures forall j | 0 <= j < i :: Eval(after, j) == Eval(start, j)
    ensures forall j | 0 <= j < i && !Stale(start[j]) :: after[j] == start[j]
    ensures after[i] == start[i].(value := start[i].computeFn.value(Unwrap(vals)), isDirty := false)
    ensures Stale(start[i]) ==> EvalKept(start, after) && OnlyStale(start, after)
  {
    assert Args(mid, mid[i].dependencies, i) == vals;
    StoreComputed(mid, i, vals);
  }

  /** One dependent's downstream marked on top of the earlier ones. */
  lemma MarkedStep(start: seq<Node>, before: seq<Node>, after: seq<Node>,
                   g: seq<seq<nat>>, i: nat, ds: seq<nat>, k: nat)
    requires Reachability.Forward(g) && i < |g| && k < |ds|
    requires forall m | 0 <= m < |ds| :: i < ds[m] < |g|
    requires before == Dirtied(start, Reachability.Reach(g, i, ds[..k]))
    requires after == Dirtied(before, Reachability.Downstream(g, ds[k]))
    ensures after == Dirtied(start, Reachability.Reach(g, i, ds[..k + 1]))
  {
    Reachability.ReachStep(g, i, ds, k);
    DirtiedTwice(start, Reachability.Reach(g, i, ds[..k]), Reachability.Downstream(g, ds[k]));
  }

  // -- the WubGraph --------------------------------------------------------------

  /** What `load_from_disk` returns for a name. */
  function LoadFromDisk(name: string): real
  {
    if name == "spot_price" then 100.0
    else if name == "fx_rate" then 0.95
    else 42.0
  }

  /** The compute function of a CACHED node: a disk load by name. */
  function Loader(name: string): Func
  {
    a => Some(LoadFromDisk(name))
  }

  /** The node arguments of a call, in order. */
  function NodeArgs(args: seq<Arg>): (r: seq<nat>)
    ensures |r| <= |args|
    ensures forall n :: n in r <==> NodeArg(n) in args
  {
    if |args| == 0 then []
    else
      var last := args[|args| - 1];
      assert forall a :: a in args <==> a in args[..|args| - 1] || a == last;
      NodeArgs(args[..|args| - 1]) + (if last.NodeArg? then [last.node] else [])
  }

  /** `self.inputs[name].get(dt)` on the dict of dicts, without its side
      effect. */
  function Lookup(inputs: map<string, map<Date, nat>>, name: string, dt: Date): Option<nat>
  {
    if name in inputs && dt in inputs[name] then Some(inputs[name][dt]) else None
  }

  /** `self.inputs[name][dt] = node` on a defaultdict of dicts. */
  function Stored(inputs: map<string, map<Date, nat>>, name: string, dt: Date, i: nat): map<string, map<Date, nat>>
  {
    inputs[name := (if name in inputs then inputs[name] else map[])[dt := i]]
  }

  /** A stored input is found under its name and date; every other lookup
      is as before. */
  lemma StoredFound(inputs: map<string, map<Date, nat>>, name: string, dt: Date, i: nat, name': string, dt': Date)
    ensures Lookup(Stored(inputs, name, dt, i), name', dt') ==
            if name' == name && dt' == dt then Some(i) else Lookup(inputs, name', dt')
  {
  }

  /** The WubGraph together with the arena of every ReactiveNode created. */
  class WubGraph {
    var nodes: seq<Node>
    var dependents: seq<seq<nat>>
    var inputs: map<string, map<Date, nat>>

    /** Dependencies lie below their node, dependents above it. */
    ghost predicate Wired()
      reads this
    {
      Layered(nodes) && |dependents| == |nodes| && Reachability.Forward(dependents)
    }

    /** Wired, each dependents list mirrors the dependency lists, and every
        input names a node. */
    ghost predicate Valid()
      reads this
    {
      Wired() && Reachability.Mirrors(DepsOf(nodes), dependents) &&
      forall n, d | n in inputs && d in inputs[n] :: inputs[n][d] < |nodes|
    }

    constructor()
      ensures Valid() && nodes == [] && dependents == [] && inputs == map[]
    {
      nodes := [];
      dependents := [];
      inputs := map[];
    }

    /** `ReactiveNode.__init__`: a dirty node with no override, registered
        as a dependent of each of its dependencies (once per listing). */
    method AddNode(value: Option<real>, computeFn: Option<Func>, dependencies: seq<nat>, canSet: bool)
      returns (i: nat)
      requires Valid() && forall k | 0 <= k < |dependencies| :: dependencies[k] < |nodes|
      modifies this
      ensures Valid() && inputs == old(inputs)
      ensures i == |old(nodes)| && nodes == old(nodes) + [Node(computeFn, dependencies, value, true, [], canSet)]
      ensures dependents == Reachability.Enrolled(old(dependents), i, dependencies) + [[]]
    {
      i := |nodes|;
      nodes := nodes + [Node(computeFn, dependencies, value, true, [], canSet)];
      Reachability.EnrolledNone(old(dependents), i, dependencies);
      var k := 0;
      while k < |dependencies|
        invariant k <= |dependencies| && inputs == old(inputs)
        invariant nodes == old(nodes) + [Node(computeFn, dependencies, value, true, [], canSet)]
        invariant dependents == Reachability.Enrolled(old(dependents), i, dependencies[..k])
      {
        Reachability.EnrolledStep(old(dependents), i, dependencies, k);
        dependents := dependents[dependencies[k] := dependents[dependencies[k]] + [i]];
        k := k + 1;
      }
      assert dependencies[..k] == dependencies;
      dependents := dependents + [[]];
      Reachability.EnrolledForward(old(dependents), dependencies);
      Reachability.EnrolledMirrors(DepsOf(old(nodes)), old(dependents), dependencies);
      assert DepsOf(nodes) == DepsOf(old(nodes)) + [dependencies];
    }

    /** `ReactiveNode.get_value`: the top override if there is one;
        otherwise a dirty node with a compute function is recomputed first;
        then the stored value. The value returned is what `Eval` gives in
        the state the call starts in, and afterwards every node still
        reports what it did. */
    method GetValue(i: nat) returns (r: Option<real>)
      requires Wired() && i < |nodes|
      modifies this
      ensures Wired() && dependents == old(dependents) && inputs == old(inputs)
      ensures SameShape(old(nodes), nodes) && OnlyStale(old(nodes), nodes) && Fixed(old(nodes), nodes, i + 1)
      ensures EvalKept(old(nodes), nodes) && r == Eval(old(nodes), i)
      ensures !Stale(old(nodes[i])) ==> r == Shown(old(nodes[i])) && nodes == old(nodes)
      decreases i, 2
    {
      var t := nodes[i];
      if |t.overrides| > 0 {
        return t.overrides[|t.overrides| - 1];
      }
      if t.computeFn.Some? && t.isDirty {
        Recompute(i);
      }
      return nodes[i].value;
    }

    /** `ReactiveNode.recompute`: fetches every dependency's value; if any
        is None the node is left as it was, otherwise the compute function's
        result is stored and the node marked clean. */
    method Recompute(i: nat)
      requires Wired() && i < |nodes| && nodes[i].computeFn.Some?
      modifies this
      ensures Wired() && dependents == old(dependents) && inputs == old(inputs)
      ensures SameShape(old(nodes), nodes) && Fixed(old(nodes), nodes, i + 1)
      ensures forall j | 0 <= j < i :: Eval(nodes, j) == Eval(old(nodes), j)
      ensures forall j | 0 <= j < i && !Stale(old(nodes[j])) :: nodes[j] == old(nodes[j])
      ensures var args := Args(old(nodes), old(nodes[i]).dependencies, i);
              nodes[i] == if None in args then old(nodes[i])
                          else old(nodes[i]).(value := old(nodes[i]).computeFn.value(Unwrap(args)), isDirty := false)
      ensures Stale(old(nodes[i])) ==> EvalKept(old(nodes), nodes) && OnlyStale(old(nodes), nodes)
      decreases i, 1
    {
      var vals := FetchAll(i);
      if None in vals {
        return;
      }
      ghost var mid := nodes;
      var t := nodes[i];
      nodes := nodes[i := t.(value := t.computeFn.value(Unwrap(vals)), isDirty := false)];
      ComputedStep(old(nodes), mid, nodes, i, vals);
    }

    /** `[dep.get_value() for dep in self.dependencies]`. */
    method FetchAll(i: nat) returns (vals: seq<Option<real>>)
      requires Wired() && i < |nodes|
      modifies this
      ensures Wired() && dependents == old(dependents) && inputs == old(inputs)
      ensures SameShape(old(nodes), nodes) && OnlyStale(old(nodes), nodes) && Fixed(old(nodes), nodes, i)
      ensures EvalKept(old(nodes), nodes)
      ensures vals == Args(old(nodes), old(nodes[i]).dependencies, i)
      decreases i, 0
    {
      var deps := nodes[i].dependencies;
      vals := [];
      while |vals| < |deps|
        invariant Wired() && dependents == old(dependents) && inputs == old(inputs)
        invariant SameShape(old(nodes), nodes) && OnlyStale(old(nodes), nodes) && Fixed(old(nodes), nodes, i)
        invariant EvalKept(old(nodes), nodes)
        invariant |vals| <= |deps| && vals == Args(old(nodes), deps[..|vals|], i)
        decreases |deps| - |vals|
      {
        ghost var before := nodes;
        var v := GetValue(deps[|vals|]);
        FetchedStep(old(nodes), before, nodes, i, deps, vals, v);
        vals := vals + [v];
      }
      assert deps[..|vals|] == deps;
    }

    /** `ReactiveNode.mark_dirty`: the node and everything downstream. */
    method MarkDirty(i: nat)
      requires Wired() && i < |nodes|
      modifies this
      ensures Wired() && dependents == old(dependents) && inputs == old(inputs)
      ensures nodes == Dirtied(old(nodes), Reachability.Downstream(dependents, i))
      decreases |nodes| - i, 2
    {
      ghost var before := nodes;
      if !nodes[i].isDirty {
        nodes := nodes[i := nodes[i].(isDirty := true)];
      }
      assert nodes == Dirtied(before, {i});
      DirtiedShape(before, {i});
      WiringLayered(before, nodes);
      MarkDependentsDirty(i);
      DirtiedTwice(before, {i}, Below(dependents, i));
    }

    /** `ReactiveNode.mark_dependents_dirty`: `mark_dirty` on each dependent
        in turn. */
    method MarkDependentsDirty(i: nat)
      requires Wired() && i < |nodes|
      modifies this
      ensures Wired() && dependents == old(dependents) && inputs == old(inputs)
      ensures nodes == Dirtied(old(nodes), Below(dependents, i))
      decreases |nodes| - i, 1
    {
      ghost var g := dependents;
      var ds := dependents[i];
      assert forall m | 0 <= m < |ds| :: i < ds[m] < |g|;
      Reachability.ReachAll(g, i, ds);
      var k := 0;
      while k < |ds|
        invariant k <= |ds| && Wired() && dependents == g && inputs == old(inputs)
        invariant nodes == Dirtied(old(nodes), Reachability.Reach(g, i, ds[..k]))
      {
        MarkNext(i, ds, k, old(nodes));
        k := k + 1;
      }
    }

    /** One turn of `mark_dependents_dirty`'s loop: `mark_dirty` on the
        `k`-th dependent adds its downstream to what is marked. */
    method MarkNext(i: nat, ds: seq<nat>, k: nat, ghost start: seq<Node>)
      requires Wired() && i < |nodes| && k < |ds|
      requires forall m | 0 <= m < |ds| :: i < ds[m] < |dependents|
      requires |start| == |dependents|
      requires nodes == Dirtied(start, Reachability.Reach(dependents, i, ds[..k]))
      modifies this
      ensures Wired() && dependents == old(dependents) && inputs == old(inputs)
      ensures nodes == Dirtied(start, Reachability.Reach(dependents, i, ds[..k + 1]))
      decreases |nodes| - i, 0
    {
      ghost var before := nodes;
      MarkDirty(ds[k]);
      MarkedStep(start, before, nodes, dependents, i, ds, k);
    }

    /** `ReactiveNode.set_value` as written: refused unless the node is
        settable; otherwise the value is stored and everything downstream
        marked dirty. The node's own dirty flag is left as it was. */
    method SetValueAsWritten(i: nat, value: Option<real>) returns (r: Result<(), Error>)
      requires Valid() && i < |nodes|
      modifies this
      ensures Valid() && dependents == old(dependents) && inputs == old(inputs)
      ensures !old(nodes[i]).canSet ==> r.Failure? && r.error.ValueError? && nodes == old(nodes)
      ensures old(nodes[i]).canSet ==>
                r == Success(()) && nodes == Dirtied(old(nodes)[i := old(nodes[i]).(value := value)], Below(dependents, i))
    {
      if !nodes[i].canSet {
        return Failure(ValueError("Cannot set value on immutable node"));
      }
      nodes := nodes[i := nodes[i].(value := value)];
      WiringLayered(old(nodes), nodes);
      MarkDependentsDirty(i);
      Redirtied(old(nodes), old(nodes)[i := old(nodes[i]).(value := value)], Below(dependents, i));
      return Success(());
    }

    /** `set_value` with the node also marked clean, so that the value set
        is the one it reports. */
    method SetValue(i: nat, value: Option<real>) returns (r: Result<(), Error>)
      requires Valid() && i < |nodes|
      modifies this
      ensures Valid() && dependents == old(dependents) && inputs == old(inputs)
      ensures !old(nodes[i]).canSet ==> r.Failure? && r.error.ValueError? && nodes == old(nodes)
      ensures old(nodes[i]).canSet ==>
                r == Success(()) &&
                nodes == Dirtied(old(nodes)[i := old(nodes[i]).(value := value, isDirty := false)], Below(dependents, i))
    {
      if !nodes[i].canSet {
        return Failure(ValueError("Cannot set value on immutable node"));
      }
      nodes := nodes[i := nodes[i].(value := value, isDirty := false)];
      WiringLayered(old(nodes), nodes);
      MarkDependentsDirty(i);
      Redirtied(old(nodes), old(nodes)[i := old(nodes[i]).(value := value, isDirty := false)], Below(dependents, i));
      return Success(());
    }

    /** Entering `override`: pushes the value and marks everything
        downstream dirty. */
    method OverrideEnter(i: nat, temp: Option<real>)
      requires Valid() && i < |nodes|
      modifies this
      ensures Valid() && dependents == old(dependents) && inputs == old(inputs)
      ensures nodes == Dirtied(old(nodes)[i := old(nodes[i]).(overrides := old(nodes[i]).overrides + [temp])],
                               Below(dependents, i))
    {
      nodes := nodes[i := nodes[i].(overrides := nodes[i].overrides + [temp])];
      WiringLayered(old(nodes), nodes);
      MarkDependentsDirty(i);
      Redirtied(old(nodes), old(nodes)[i := old(nodes[i]).(overrides := old(nodes[i]).overrides + [temp])],
                Below(dependents, i));
    }

    /** Leaving `override`: pops the stack (an error if it is empty) and
        marks everything downstream dirty. */
    method OverrideExit(i: nat) returns (r: Result<(), Error>)
      requires Valid() && i < |nodes|
      modifies this
      ensures Valid() && dependents == old(dependents) && inputs == old(inputs)
      ensures |old(nodes[i]).overrides| == 0 ==> r.Failure? && r.error.IndexError? && nodes == old(nodes)
      ensures |old(nodes[i]).overrides| > 0 ==>
                r == Success(()) &&
                nodes == Dirtied(old(nodes)[i := old(nodes[i]).(overrides := Pop(old(nodes[i]).overrides))],
                                 Below(dependents, i))
    {
      if |nodes[i].overrides| == 0 {
        return Failure(IndexError("pop from empty list"));
      }
      nodes := nodes[i := nodes[i].(overrides := Pop(nodes[i].overrides))];
      WiringLayered(old(nodes), nodes);
      MarkDependentsDirty(i);
      Redirtied(old(nodes), old(nodes)[i := old(nodes[i]).(overrides := Pop(old(nodes[i]).overrides))],
                Below(dependents, i));
      return Success(());
    }

    /** `WubGraph.input`: a settable node holding `value`, stored under the
        name and date. */
    method Input(name: string, dt: Date, value: Option<real>) returns (i: nat)
      requires Valid()
      modifies this
      ensures Valid()
      ensures i == |old(nodes)| && nodes == old(nodes) + [Node(None, [], value, true, [], true)]
      ensures dependents == old(dependents) + [[]]
      ensures inputs == Stored(old(inputs), name, dt, i)
    {
      i := AddNode(value, None, [], true);
      Reachability.EnrolledNone(old(dependents), i, []);
      inputs := Stored(inputs, name, dt, i);
    }

    /** `WubGraph.get_input`: the node stored under the name and date, if
        any; looking up an unseen name leaves an empty dict under it. */
    method GetInput(name: string, dt: Date) returns (r: Option<nat>)
      requires Valid()
      modifies this
      ensures Valid() && nodes == old(nodes) && dependents == old(dependents)
      ensures inputs == if name in old(inputs) then old(inputs) else old(inputs)[name := map[]]
      ensures r == Lookup(old(inputs), name, dt)
    {
      if name !in inputs {
        inputs := inputs[name := map[]];
      }
      var dates := inputs[name];
      if dt in dates {
        return Some(dates[dt]);
      }
      return None;
    }

    /** A call of a function decorated with `fn(mode, can_set)`. CACHED
        makes a node with no dependencies that loads `name` from disk;
        COMPUTED makes a node over the node arguments only, computing with
        the user function; any other mode is a ValueError. */
    method Fn(mode: Mode, name: string, func: Func, canSet: bool, args: seq<Arg>) returns (r: Result<nat, Error>)
      requires Valid()
      requires forall k | 0 <= k < |args| :: args[k].NodeArg? ==> args[k].node < |nodes|
      modifies this
      ensures Valid() && inputs == old(inputs)
      ensures mode.Unknown? ==>
                r.Failure? && r.error.ValueError? && nodes == old(nodes) && dependents == old(dependents)
      ensures mode.Cached? ==>
                r == Success(|old(nodes)|) &&
                nodes == old(nodes) + [Node(Some(Loader(name)), [], None, true, [], canSet)] &&
                dependents == old(dependents) + [[]]
      ensures mode.Computed? ==>
                r == Success(|old(nodes)|) &&
                nodes == old(nodes) + [Node(Some(func), NodeArgs(args), None, true, [], canSet)] &&
                dependents == Reachability.Enrolled(old(dependents), |old(nodes)|, NodeArgs(args)) + [[]]
    {
      match mode
      case Cached =>
        var i := AddNode(None, Some(Loader(name)), [], canSet);
        Reachability.EnrolledNone(old(dependents), i, []);
        return Success(i);
      case Computed =>
        var deps := NodeArgs(args);
        forall k | 0 <= k < |deps| ensures deps[k] < |nodes| {
          assert deps[k] in deps;
          var m :| 0 <= m < |args| && args[m] == NodeArg(deps[k]);
        }
        var i := AddNode(None, Some(func), deps, canSet);
        return Success(i);
      case Unknown(given) =>
        return Failure(ValueError("Unknown mode: " + given));
    }
  }

  /** Marking dirty a relabelled arena keeps it consistent. */
  lemma Redirtied(a: seq<Node>, ns: seq<Node>, s: set<nat>)
    requires Layered(a) && SameWiring(a, ns)
    ensures Layered(Dirtied(ns, s)) && DepsOf(Dirtied(ns, s)) == DepsOf(a)
  {
    WiringLayered(a, ns);
    DirtiedShape(ns, s);
    WiringLayered(ns, Dirtied(ns, s));
  }

  function Pop<T>(s: seq<T>): seq<T>
    requires |s| > 0
  {
    s[..|s| - 1]
  }

  // -- what set_value and override leave behind --------------------------------

  /** As written, `set_value` on a node that `get_value` would recompute
      does not change what it reports: the next `get_value` recomputes it
      and overwrites the value set, unless a dependency reports None. */
  lemma SetLostAsWritten(ns: seq<Node>, g: seq<seq<nat>>, i: nat, v: Option<real>)
    requires Layered(ns) && Reachability.Forward(g) && |g| == |ns| && i < |ns| && Stale(ns[i])
    ensures var after := Dirtied(ns[i := ns[i].(value := v)], Below(g, i));
            Layered(after) &&
            Eval(after, i) == (var args := Args(ns, ns[i].dependencies, i);
                               if None in args then v else ns[i].computeFn.value(Unwrap(args)))
  {
    var t := ns[i].(value := v);
    var after := Dirtied(ns[i := t], Below(g, i));
    Redirtied(ns, ns[i := t], Below(g, i));
    Reachability.ReachBounds(g, i, g[i]);
    var ds := ns[i].dependencies;
    forall k | 0 <= k < |ds| ensures Eval(after, ds[k]) == Eval(ns, ds[k]) {
      EvalBelow(after, ns, ds[k]);
    }
    assert Args(after, ds, i) == Args(ns, ds, i);
    assert after[i] == t;
  }

  /** With the node marked clean, a node without an override reports the
      value just set. */
  lemma SetShown(ns: seq<Node>, g: seq<seq<nat>>, i: nat, v: Option<real>)
    requires Layered(ns) && Reachability.Forward(g) && |g| == |ns| && i < |ns|
    ensures var after := Dirtied(ns[i := ns[i].(value := v, isDirty := false)], Below(g, i));
            Layered(after) && Eval(after, i) == if |ns[i].overrides| > 0 then Shown(ns[i]) else v
  {
    var t := ns[i].(value := v, isDirty := false);
    Redirtied(ns, ns[i := t], Below(g, i));
    Reachability.ReachBounds(g, i, g[i]);
    assert Dirtied(ns[i := t], Below(g, i))[i] == t;
  }

  /** While an override is active its node reports it; leaving it gives
      back the arena that marking the same nodes dirty without the
      override gives. */
  lemma OverrideShown(ns: seq<Node>, g: seq<seq<nat>>, i: nat, temp: Option<real>)
    requires Layered(ns) && Reachability.Forward(g) && |g| == |ns| && i < |ns|
    ensures var pushed := Dirtied(ns[i := ns[i].(overrides := ns[i].overrides + [temp])], Below(g, i));
            Layered(pushed) && Eval(pushed, i) == temp &&
            Dirtied(pushed[i := pushed[i].(overrides := Pop(pushed[i].overrides))], Below(g, i)) == Dirtied(ns, Below(g, i))
  {
    var s := Below(g, i);
    var t := ns[i].(overrides := ns[i].overrides + [temp]);
    var pushed := Dirtied(ns[i := t], s);
    Redirtied(ns, ns[i := t], s);
    Reachability.ReachBounds(g, i, g[i]);
    assert pushed[i] == t;
    assert Pop(t.overrides) == ns[i].overrides;
    var l := Dirtied(pushed[i := pushed[i].(overrides := Pop(pushed[i].overrides))], s);
    var r := Dirtied(ns, s);
    forall j | 0 <= j < |ns| ensures l[j] == r[j] {
      if j in s {
        assert l[j] == ns[j].(isDirty := true).(isDirty := true);
      }
    }
  }

  // -- the usage example ---------------------------------------------------------

  /** `usd_price`: the product of its two arguments. */
  function UsdPrice(a: seq<real>): Option<real>
  {
    if |a| == 2 then Some(a[0] * a[1]) else None
  }

  /** A body of `pass`: None. */
  function Pass(a: seq<real>): Option<real>
  {
    None
  }

  /** The usage example's nodes as created: spot and fx load from disk,
      usd_price multiplies them. */
  ghost predicate AsCreated(ns: seq<Node>)
  {
    |ns| == 3 &&
    ns[0] == Node(Some(Loader("spot_price")), [], None, true, [], false) &&
    ns[1] == Node(Some(Loader("fx_rate")), [], None, true, [], true) &&
    ns[2] == Node(Some(UsdPrice), [0, 1], None, true, [], false)
  }

  /** Read from disk, spot is 100.0, fx 0.95 and usd_price 95.0. */
  lemma ExampleValues(ns: seq<Node>)
    requires AsCreated(ns)
    ensures Layered(ns)
    ensures Eval(ns, 0) == Some(100.0) && Eval(ns, 1) == Some(0.95) && Eval(ns, 2) == Some(95.0)
  {
    Loaded(ns, 0, "spot_price");
    Loaded(ns, 1, "fx_rate");
    var args := Args(ns, [0, 1], 2);
    assert args == [Some(100.0), Some(0.95)];
    assert Unwrap(args) == [100.0, 0.95];
  }

  /** A dirty CACHED node with no override reports what the disk holds. */
  lemma Loaded(ns: seq<Node>, i: nat, name: string)
    requires Layered(ns) && i < |ns| && ns[i].dependencies == [] && Stale(ns[i])
    requires ns[i].computeFn == Some(Loader(name))
    ensures Eval(ns, i) == Some(LoadFromDisk(name))
  {
    assert Args(ns, [], i) == [];
    assert Unwrap([]) == [];
  }

  /** usd_price's node arguments are spot and fx. */
  lemma ExampleArgs()
    ensures NodeArgs([NodeArg(0), NodeArg(1)]) == [0, 1]
  {
    assert [NodeArg(0), NodeArg(1)][..1] == [NodeArg(0)];
    assert [NodeArg(0)][..0] == [];
  }

  /** A call with one node argument depends on that node alone. */
  lemma SingleArg(n: nat)
    ensures NodeArgs([NodeArg(n)]) == [n]
  {
    assert [NodeArg(n)][..0] == [];
  }

  /** Spot and fx each list usd_price as their dependent. */
  lemma ExampleDependents()
    ensures Reachability.Enrolled([[], []], 2, [0, 1]) + [[]] == [[2], [2], []]
  {
    assert [0, 1][..1] == [0];
    assert [0][..0] == [];
    assert TopoSort.Occ(0, [0, 1]) == 1 && TopoSort.Occ(1, [0, 1]) == 1;
    assert Reachability.Copies(2, 1) == [2];
    var e := Reachability.Enrolled([[], []], 2, [0, 1]);
    assert e[0] == [2] && e[1] == [2];
  }

  /** Below fx there is only usd_price. */
  lemma ExampleBelow()
    ensures Reachability.Forward([[2], [2], []]) && Below([[2], [2], []], 1) == {2}
  {
    var g: seq<seq<nat>> := [[2], [2], []];
    assert [2][..0] == [];
    assert Reachability.Downstream(g, 2) == {2};
  }

  /** With fx overridden by 1.0, usd_price reports 100.0. */
  lemma ExampleOverridden(s0: seq<Node>, s1: seq<Node>, s2: seq<Node>)
    requires AsCreated(s0) && Layered(s0) && Layered(s1) && SameShape(s0, s1) && EvalKept(s0, s1)
    requires s2 == Dirtied(s1[1 := s1[1].(overrides := s1[1].overrides + [Some(1.0)])], {2})
    ensures Layered(s2) && Eval(s2, 2) == Some(100.0)
  {
    ExampleValues(s0);
    Redirtied(s1, s1[1 := s1[1].(overrides := s1[1].overrides + [Some(1.0)])], {2});
    EvalLocal(s2, s1, 0);
    assert Eval(s2, 1) == Some(1.0);
    assert Args(s2, [0, 1], 2) == [Some(100.0), Some(1.0)];
  }

  /** Leaving the override restores fx's node and the arena's shape;
      usd_price is dirty again. */
  lemma ExampleRestoredShape(s0: seq<Node>, s1: seq<Node>, s2: seq<Node>, s3: seq<Node>, s4: seq<Node>)
    requires AsCreated(s0) && Layered(s1) && SameShape(s0, s1)
    requires s2 == Dirtied(s1[1 := s1[1].(overrides := s1[1].overrides + [Some(1.0)])], {2})
    requires Layered(s2) && Layered(s3) && SameShape(s2, s3) && OnlyStale(s2, s3)
    requires s4 == Dirtied(s3[1 := s3[1].(overrides := Pop(s3[1].overrides))], {2})
    ensures Layered(s4) && SameShape(s0, s4) && s4[1] == s1[1] && s4[0] == s3[0] && Stale(s4[2])
  {
    Redirtied(s3, s3[1 := s3[1].(overrides := Pop(s3[1].overrides))], {2});
    assert s3[1] == s2[1];
  }

  /** Once the override is left, every node reports what it did before. */
  lemma ExampleRestored(s0: seq<Node>, s1: seq<Node>, s2: seq<Node>, s3: seq<Node>, s4: seq<Node>)
    requires AsCreated(s0) && Layered(s0) && Layered(s1) && EvalKept(s0, s1)
    requires s2 == Dirtied(s1[1 := s1[1].(overrides := s1[1].overrides + [Some(1.0)])], {2})
    requires Layered(s2) && Layered(s3) && EvalKept(s2, s3) && Layered(s4) && SameShape(s0, s4)
    requires s4[1] == s1[1] && s4[0] == s3[0] && Stale(s4[2])
    ensures EvalKept(s0, s4)
  {
    ExampleValues(s0);
    EvalLocal(s2, s1, 0);
    EvalLocal(s4, s3, 0);
    EvalLocal(s4, s1, 1);
    assert Args(s4, [0, 1], 2) == [Some(100.0), Some(0.95)];
  }

  /** The usage example's two CACHED calls. */
  method ExampleInputs() returns (wub: WubGraph)
    ensures fresh(wub) && wub.Valid() && wub.dependents == [[], []] && |wub.nodes| == 2
    ensures wub.nodes[0] == Node(Some(Loader("spot_price")), [], None, true, [], false)
    ensures wub.nodes[1] == Node(Some(Loader("fx_rate")), [], None, true, [], true)
  {
    wub := new WubGraph();
    var spot := wub.Fn(Cached, "spot_price", Pass, false, [Plain]);
    var fx := wub.Fn(Cached, "fx_rate", Pass, true, [Plain]);
  }

  /** The usage example's three decorated calls. */
  method ExampleGraph() returns (wub: WubGraph)
    ensures fresh(wub) && wub.Valid() && AsCreated(wub.nodes) && wub.dependents == [[2], [2], []]
  {
    wub := ExampleInputs();
    ExampleArgs();
    ExampleDependents();
    var usd := wub.Fn(Computed, "usd_price", UsdPrice, false, [NodeArg(0), NodeArg(1)]);
  }

  /** The `with fx.override(1.0)` block: usd_price reads 100.0 inside it;
      afterwards every node reports what it did before. */
  method ExampleOverride(wub: WubGraph, ghost s0: seq<Node>) returns (during: Option<real>)
    requires wub.Valid() && wub.dependents == [[2], [2], []]
    requires AsCreated(s0) && Layered(s0) && SameShape(s0, wub.nodes) && EvalKept(s0, wub.nodes)
    modifies wub
    ensures wub.Valid() && wub.dependents == [[2], [2], []]
    ensures SameShape(s0, wub.nodes) && EvalKept(s0, wub.nodes) && during == Some(100.0)
  {
    ExampleBelow();
    ghost var s1 := wub.nodes;
    wub.OverrideEnter(1, Some(1.0));
    ghost var s2 := wub.nodes;
    ExampleOverridden(s0, s1, s2);
    during := wub.GetValue(2);
    ghost var s3 := wub.nodes;
    var _ := wub.OverrideExit(1);
    ExampleRestoredShape(s0, s1, s2, s3, wub.nodes);
    ExampleRestored(s0, s1, s2, s3, wub.nodes);
  }

  /** The usage example: `usd_price(spot, fx)` reports 100.0 * 0.95 with
      both loaded from disk, 100.0 while `fx` is overridden with 1.0, and
      95.0 again once the override is left. */
  method UsageExample() returns (first: Option<real>, during: Option<real>, after: Option<real>)
    ensures first == Some(95.0) && during == Some(100.0) && after == Some(95.0)
  {
    var wub := ExampleGraph();
    ghost var s0 := wub.nodes;
    ExampleValues(s0);
    first := wub.GetValue(2);
    during := ExampleOverride(wub, s0);
    after := wub.GetValue(2);
  }

  /** As written: `fx_rate` is settable, but a value set before the node
      is first read is lost; the read loads 0.95 from disk. */
  method SetBeforeReadAsWritten() returns (r: Option<real>)
    ensures r == Some(0.95)
  {
    var wub := new WubGraph();
    var fx := wub.Fn(Cached, "fx_rate", Pass, true, [Plain]);
    var _ := wub.SetValueAsWritten(fx.value, Some(1.0));
    r := wub.GetValue(fx.value);
  }

  /** Corrected: the value set before the first read is the one read. */
  method SetBeforeRead() returns (r: Option<real>)
    ensures r == Some(1.0)
  {
    var wub := new WubGraph();
    var fx := wub.Fn(Cached, "fx_rate", Pass, true, [Plain]);
    var _ := wub.SetValue(fx.value, Some(1.0));
    r := wub.GetValue(fx.value);
  }
}
