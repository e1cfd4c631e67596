/** The PyTorch-style graph: nodes without dirty flags that recompute on
    every `get_value`, a `set_value` guarded by `can_set`, an override
    context that saves and restores the stored value, and the
    WubGraphPyTorch factory (`input` and `fn`).

    As in the lazy graph, every node lives in an arena at the position it
    was created in, and its dependencies sit at lower positions. What
    `get_value` reports is given by a reference definition, `Eval`;
    `get_value` returns `Eval` of the state it starts in and leaves `Eval`
    of every node as it was. */
module PyTorchGraph {
  import opened Wrappers
  import LazyGraph

  /** A ReactiveNodePyTorch: its compute function, its dependencies, the
      stored `_value` and whether it may be set. */
  datatype Node = Node(computeFn: Option<LazyGraph.Func>, dependencies: seq<nat>, value: Option<real>, canSet: bool)

  /** Every dependency lies below its node. */
  ghost predicate Layered(ns: seq<Node>)
  {
    forall j | 0 <= j < |ns| :: forall k | 0 <= k < |ns[j].dependencies| :: ns[j].dependencies[k] < j
  }

  /** The value `get_value` reports for node `i`: for a node with a compute
      function, the function applied to its dependencies' values, or the
      stored value when one of those is None; otherwise the stored value. */
  ghost function Eval(ns: seq<Node>, i: nat): Option<real>
    requires Layered(ns) && i < |ns|
    decreases i, 1
  {
    var t := ns[i];
    if t.computeFn.Some? then
      var args := Args(ns, t.dependencies, i);
      if None in args then t.value else t.computeFn.value(LazyGraph.Unwrap(args))
    else t.value
  }

  /** The values of the nodes `ds`, all below `bound`. */
  ghost function Args(ns: seq<Node>, ds: seq<nat>, bound: nat): (r: seq<Option<real>>)
    requires Layered(ns) && bound <= |ns|
    requires forall k | 0 <= k < |ds| :: ds[k] < bound
    ensures |r| == |ds| && forall k | 0 <= k < |ds| :: r[k] == Eval(ns, ds[k])
    decreases bound, 0, |ds|
  {
    if |ds| == 0 then []
    else
      var r := Args(ns, ds[..|ds| - 1], bound) + [Eval(ns, ds[|ds| - 1])];
      assert forall k | 0 <= k < |ds| - 1 :: ds[..|ds| - 1][k] == ds[k];
      r
  }

  /** Same nodes with the same compute functions, dependencies and
      settability: only stored values may differ. */
  ghost predicate SameWiring(a: seq<Node>, b: seq<Node>)
  {
    |a| == |b| &&
    forall j | 0 <= j < |a| ::
      a[j].computeFn == b[j].computeFn && a[j].dependencies == b[j].dependencies && a[j].canSet == b[j].canSet
  }

  /** Nodes without a compute function are the same in both. */
  ghost predicate InputsKept(a: seq<Node>, b: seq<Node>)
  {
    |a| == |b| && forall j | 0 <= j < |a| && a[j].computeFn.None? :: b[j] == a[j]
  }

  /** Nodes from `i` up are unchanged. */
  ghost predicate Fixed(a: seq<Node>, b: seq<Node>, i: nat)
  {
    |a| == |b| && forall j | i <= j < |a| :: b[j] == a[j]
  }

  /** Every node reports the same value in both. */
  ghost predicate EvalKept(a: seq<Node>, b: seq<Node>)
    requires Layered(a) && Layered(b)
  {
    |a| == |b| && forall j | 0 <= j < |a| :: Eval(b, j) == Eval(a, j)
  }

  /** No node with a compute function has a None among its dependencies'
      values. */
  ghost predicate Defined(ns: seq<Node>)
    requires Layered(ns)
  {
    forall j | 0 <= j < |ns| && ns[j].computeFn.Some? :: None !in Args(ns, ns[j].dependencies, j)
  }

  // -- facts about Eval --------------------------------------------------------

  lemma WiringLayered(a: seq<Node>, b: seq<Node>)
    requires Layered(a) && SameWiring(a, b)
    ensures Layered(b)
  {
    assert forall j | 0 <= j < |a| :: b[j].dependencies == a[j].dependencies;
  }

  /** A node reports the same value in two arenas when it is the same node
      there and its dependencies report the same values. */
  lemma EvalLocal(a: seq<Node>, b: seq<Node>, j: nat)
    requires Layered(a) && Layered(b) && j < |a| && j < |b| && a[j] == b[j]
    requires forall k | 0 <= k < |a[j].dependencies| :: Eval(a, a[j].dependencies[k]) == Eval(b, a[j].dependencies[k])
    ensures Eval(a, j) == Eval(b, j)
  {
    var ds := a[j].dependencies;
    assert Args(a, ds, j) == Args(b, ds, j);
  }

  /** What a node reports depends only on the nodes at or below it. */
  lemma {:induction false} EvalBelow(a: seq<Node>, b: seq<Node>, j: nat)
    requires Layered(a) && Layered(b) && j < |a| && j < |b|
    requires forall k | 0 <= k <= j :: a[k] == b[k]
    ensures Eval(a, j) == Eval(b, j)
    decreases j
  {
    var ds := a[j].dependencies;
    forall k | 0 <= k < |ds| ensures Eval(a, ds[k]) == Eval(b, ds[k]) {
      EvalBelow(a, b, ds[k]);
    }
    EvalLocal(a, b, j);
  }

  /** Changing one node without changing what it reports changes what no
      node reports. */
  lemma {:induction false} EvalAgree(a: seq<Node>, b: seq<Node>, i: nat, j: nat)
    requires Layered(a) && Layered(b) && |a| == |b| && i < |a| && j < |a|
    requires forall m | 0 <= m < |a| && m != i :: a[m] == b[m]
    requires Eval(a, i) == Eval(b, i)
    ensures Eval(a, j) == Eval(b, j)
    decreases j
  {
    if j != i {
      var ds := a[j].dependencies;
      forall k | 0 <= k < |ds| ensures Eval(a, ds[k]) == Eval(b, ds[k]) {
        EvalAgree(a, b, i, ds[k]);
      }
      EvalLocal(a, b, j);
    }
  }

  /** `get_value` recomputes on every call: when none of its dependencies
      is None, what a node with a compute function reports does not depend
      on its stored value. */
  lemma StoredIgnored(ns: seq<Node>, i: nat, x: Option<real>)
    requires Layered(ns) && i < |ns| && ns[i].computeFn.Some?
    requires None !in Args(ns, ns[i].dependencies, i)
    ensures Layered(ns[i := ns[i].(value := x)])
    ensures Eval(ns[i := ns[i].(value := x)], i) == Eval(ns, i)
  {
    var b := ns[i := ns[i].(value := x)];
    WiringLayered(ns, b);
    forall k | 0 <= k < |ns[i].dependencies| ensures Eval(ns, ns[i].dependencies[k]) == Eval(b, ns[i].dependencies[k]) {
      EvalBelow(ns, b, ns[i].dependencies[k]);
    }
    assert Args(ns, ns[i].dependencies, i) == Args(b, ns[i].dependencies, i);
  }

  /** When no dependency is None anywhere, what every node reports is
      decided by the nodes without a compute function alone. */
  lemma {:induction false} InputsDecide(a: seq<Node>, b: seq<Node>, j: nat)
    requires Layered(a) && SameWiring(a, b) && InputsKept(a, b) && Defined(a) && j < |a|
    ensures Layered(b) && Eval(b, j) == Eval(a, j)
    decreases j
  {
    WiringLayered(a, b);
    if a[j].computeFn.Some? {
      var ds := a[j].dependencies;
      forall k | 0 <= k < |ds| ensures Eval(b, ds[k]) == Eval(a, ds[k]) {
        InputsDecide(a, b, ds[k]);
      }
      assert Args(a, ds, j) == Args(b, ds, j);
    }
  }

  /** One more dependency fetched by `compute`. */
  lemma FetchedStep(start: seq<Node>, before: seq<Node>, after: seq<Node>, i: nat,
                    deps: seq<nat>, vals: seq<Option<real>>, v: Option<real>)
    requires Layered(start) && Layered(before) && Layered(after) && i < |start|
    requires deps == start[i].dependencies && |vals| < |deps|
    requires SameWiring(start, before) && InputsKept(start, before) && Fixed(start, before, i)
    requires EvalKept(start, before) && vals == Args(start, deps[..|vals|], i)
    requires SameWiring(before, after) && InputsKept(before, after) && Fixed(before, after, deps[|vals|] + 1)
    requires EvalKept(before, after) && v == Eval(before, deps[|vals|])
    ensures SameWiring(start, after) && InputsKept(start, after) && Fixed(start, after, i)
    ensures EvalKept(start, after) && vals + [v] == Args(start, deps[..|vals| + 1], i)
  {
    var k := |vals|;
    assert deps[..k + 1][..k] == deps[..k];
  }

  /** Two arenas that agree below `bound` give the same values to nodes
      below it. */
  lemma ArgsBelow(a: seq<Node>, b: seq<Node>, ds: seq<nat>, bound: nat)
    requires Layered(a) && Layered(b) && bound <= |a| && bound <= |b|
    requires forall k | 0 <= k < bound :: a[k] == b[k]
    requires forall k | 0 <= k < |ds| :: ds[k] < bound
    ensures Args(a, ds, bound) == Args(b, ds, bound)
  {
    forall k | 0 <= k < |ds| ensures Eval(a, ds[k]) == Eval(b, ds[k]) {
      EvalBelow(a, b, ds[k]);
    }
  }

  /** Storing what node `i` computes from its dependencies' values changes
      what no node reports. */
  lemma StoreComputed(mid: seq<Node>, i: nat, vals: seq<Option<real>>)
    requires Layered(mid) && i < |mid| && mid[i].computeFn.Some?
    requires vals == Args(mid, mid[i].dependencies, i) && None !in vals
    ensures var after := mid[i := mid[i].(value := mid[i].computeFn.value(LazyGraph.Unwrap(vals)))];
            Layered(after) && EvalKept(mid, after) && after[i].value == Eval(mid, i)
  {
    var after := mid[i := mid[i].(value := mid[i].computeFn.value(LazyGraph.Unwrap(vals)))];
    WiringLayered(mid, after);
    ArgsBelow(mid, after, mid[i].dependencies, i);
    forall j | 0 <= j < |after| ensures Eval(after, j) == Eval(mid, j) {
      EvalAgree(mid, after, i, j);
    }
  }

  /** Storing the computed value at `i` once its dependencies are fetched. */
  lemma ComputedStep(start: seq<Node>, mid: seq<Node>, after: seq<Node>, i: nat, vals: seq<Option<real>>)
    requires Layered(start) && Layered(mid) && i < |mid|
    requires SameWiring(start, mid) && InputsKept(start, mid) && Fixed(start, mid, i) && EvalKept(start, mid)
    requires mid[i].computeFn.Some?
    requires vals == Args(start, start[i].dependencies, i) && None !in vals
    requires after == mid[i := mid[i].(value := mid[i].computeFn.value(LazyGraph.Unwrap(vals)))]
    ensures Layered(after) && SameWiring(start, after) && InputsKept(start, after) && Fixed(start, after, i + 1)
    ensures EvalKept(start, after) && after[i].value == Eval(start, i)
  {
    assert Args(mid, mid[i].dependencies, i) == vals;
    StoreComputed(mid, i, vals);
  }

  /** The WubGraphPyTorch together with the arena of every node created. */
  class WubGraphPyTorch {
    var nodes: seq<Node>
    var inputs: map<string, nat>

    /** Dependencies lie below their node and every input names a node. */
    ghost predicate Valid()
      reads this
    {
      Layered(nodes) && forall n | n in inputs :: inputs[n] < |nodes|
    }

    constructor()
      ensures Valid() && nodes == [] && inputs == map[]
    {
      nodes := [];
      inputs := map[];
    }

    /** `ReactiveNodePyTorch.__init__`. */
    method AddNode(value: Option<real>, computeFn: Option<LazyGraph.Func>, dependencies: seq<nat>, canSet: bool)
      returns (i: nat)
      requires Valid() && forall k | 0 <= k < |dependencies| :: dependencies[k] < |nodes|
      modifies this
      ensures Valid() && inputs == old(inputs)
      ensures i == |old(nodes)| && nodes == old(nodes) + [Node(computeFn, dependencies, value, canSet)]
    {
      i := |nodes|;
      nodes := nodes + [Node(computeFn, dependencies, value, canSet)];
    }

    /** `ReactiveNodePyTorch.set_value`: refused unless the node is
        settable; otherwise the stored value is replaced and nothing else
        changes. */
    method SetValue(i: nat, value: Option<real>) returns (r: Result<(), LazyGraph.Error>)
      requires Valid() && i < |nodes|
      modifies this
      ensures Valid() && inputs == old(inputs)
      ensures !old(nodes[i]).canSet ==> r.Failure? && r.error.ValueError? && nodes == old(nodes)
      ensures old(nodes[i]).canSet ==> r == Success(()) && nodes == old(nodes)[i := old(nodes[i]).(value := value)]
    {
      if !nodes[i].canSet {
        return Failure(LazyGraph.ValueError("Cannot set value on immutable node"));
      }
      nodes := nodes[i := nodes[i].(value := value)];
      WiringLayered(old(nodes), nodes);
      return Success(());
    }

    /** `ReactiveNodePyTorch.get_value`: a node with a compute function is
        recomputed, otherwise the stored value is returned. The value
        returned is what `Eval` gives in the state the call starts in, it
        is the node's stored value afterwards, and every node still reports
        what it did. */
    method GetValue(i: nat) returns (r: Option<real>)
      requires Valid() && i < |nodes|
      modifies this
      ensures Valid() && inputs == old(inputs)
      ensures SameWiring(old(nodes), nodes) && InputsKept(old(nodes), nodes) && Fixed(old(nodes), nodes, i + 1)
      ensures EvalKept(old(nodes), nodes) && r == Eval(old(nodes), i) && nodes[i].value == r
      decreases i, 2
    {
      if nodes[i].computeFn.Some? {
        r := Compute(i);
      } else {
        r := nodes[i].value;
      }
    }

    /** `ReactiveNodePyTorch.compute`: with a compute function, fetches
        every dependency's value and, when none is None, stores the
        function's result; returns the stored value. */
    method Compute(i: nat) returns (r: Option<real>)
      requires Valid() && i < |nodes|
      modifies this
      ensures Valid() && inputs == old(inputs)
      ensures SameWiring(old(nodes), nodes) && InputsKept(old(nodes), nodes) && Fixed(old(nodes), nodes, i + 1)
      ensures EvalKept(old(nodes), nodes) && r == Eval(old(nodes), i) && nodes[i].value == r
      decreases i, 1
    {
      if nodes[i].computeFn.Some? {
        var vals := FetchAll(i);
        if None !in vals {
          ghost var mid := nodes;
          var t := nodes[i];
          nodes := nodes[i := t.(value := t.computeFn.value(LazyGraph.Unwrap(vals)))];
          ComputedStep(old(nodes), mid, nodes, i, vals);
        }
      }
      r := nodes[i].value;
    }

    /** `[dep.get_value() for dep in self.dependencies]`. */
    method FetchAll(i: nat) returns (vals: seq<Option<real>>)
      requires Valid() && i < |nodes|
      modifies this
      ensures Valid() && inputs == old(inputs)
      ensures SameWiring(old(nodes), nodes) && InputsKept(old(nodes), nodes) && Fixed(old(nodes), nodes, i)
      ensures EvalKept(old(nodes), nodes)
      ensures vals == Args(old(nodes), old(nodes[i]).dependencies, i)
      decreases i, 0
    {
      var deps := nodes[i].dependencies;
      vals := [];
      while |vals| < |deps|
        invariant Valid() && inputs == old(inputs)
        invariant SameWiring(old(nodes), nodes) && InputsKept(old(nodes), nodes) && Fixed(old(nodes), nodes, i)
        invariant EvalKept(old(nodes), nodes)
        invariant |vals| <= |deps| && vals == Args(old(nodes), deps[..|vals|], i)
        decreases |deps| - |vals|
      {
        ghost var before := nodes;
        var v := GetValue(deps[|vals|]);
        FetchedStep(old(nodes), before, nodes, i, deps, vals, v);
        vals := vals + [v];
      }
      assert deps[..|vals|] == deps;
    }

    /** `ReactiveNodePyTorch.override`: a context for node `i`. */
    method Override(i: nat, temp: Option<real>) returns (ctx: OverrideContext)
      requires Valid() && i < |nodes|
      ensures fresh(ctx) && ctx.graph == this && ctx.node == i && ctx.tempValue == temp
      ensures ctx.originalValue == None
    {
      ctx := new OverrideContext(this, i, temp);
    }

    /** `WubGraphPyTorch.input`: a settable node holding `value`, stored
        under its name (replacing any earlier node of that name). */
    method Input(name: string, value: Option<real>) returns (i: nat)
      requires Valid()
      modifies this
      ensures Valid()
      ensures i == |old(nodes)| && nodes == old(nodes) + [Node(None, [], value, true)]
      ensures inputs == old(inputs)[name := i]
    {
      i := AddNode(value, None, [], true);
      inputs := inputs[name := i];
    }

    /** A call of a function decorated with `fn`: a node computing `func`
        over the call's node arguments, in order; other arguments are
        dropped. */
    method Fn(func: LazyGraph.Func, args: seq<LazyGraph.Arg>) returns (i: nat)
      requires Valid()
      requires forall k | 0 <= k < |args| :: args[k].NodeArg? ==> args[k].node < |nodes|
      modifies this
      ensures Valid() && inputs == old(inputs)
      ensures i == |old(nodes)| && nodes == old(nodes) + [Node(Some(func), LazyGraph.NodeArgs(args), None, false)]
    {
      var deps := LazyGraph.NodeArgs(args);
      assert forall k | 0 <= k < |deps| :: deps[k] < |nodes| by {
        forall k | 0 <= k < |deps| ensures deps[k] < |nodes| {
          assert deps[k] in deps;
          var m :| 0 <= m < |args| && args[m] == LazyGraph.NodeArg(deps[k]);
        }
      }
      i := AddNode(None, Some(func), deps, false);
    }
  }

  /** The context `override` returns: entering saves the node's stored
      value and stores the temporary one; leaving stores the saved value
      back. */
  class OverrideContext {
    const graph: WubGraphPyTorch
    const node: nat
    const tempValue: Option<real>
    var originalValue: Option<real>

    constructor(graph: WubGraphPyTorch, node: nat, tempValue: Option<real>)
      ensures this.graph == graph && this.node == node && this.tempValue == tempValue
      ensures originalValue == None
    {
      this.graph := graph;
      this.node := node;
      this.tempValue := tempValue;
      originalValue := None;
    }

    /** `__enter__`: returns the node. */
    method Enter() returns (r: nat)
      requires graph.Valid() && node < |graph.nodes|
      modifies this, graph
      ensures graph.Valid() && graph.inputs == old(graph.inputs) && r == node
      ensures originalValue == old(graph.nodes[node]).value
      ensures graph.nodes == old(graph.nodes)[node := old(graph.nodes[node]).(value := tempValue)]
    {
      originalValue := graph.nodes[node].value;
      graph.nodes := graph.nodes[node := graph.nodes[node].(value := tempValue)];
      WiringLayered(old(graph.nodes), graph.nodes);
      r := node;
    }

    /** `__exit__`. */
    method Exit()
      requires graph.Valid() && node < |graph.nodes|
      modifies graph
      ensures graph.Valid() && graph.inputs == old(graph.inputs)
      ensures graph.nodes == old(graph.nodes)[node := old(graph.nodes[node]).(value := originalValue)]
    {
      graph.nodes := graph.nodes[node := graph.nodes[node].(value := originalValue)];
      WiringLayered(old(graph.nodes), graph.nodes);
    }
  }

  /** An input whose stored value is replaced by `v`, by `set_value` or
      by entering an override, reports `v`. */
  lemma InputShown(ns: seq<Node>, i: nat, v: Option<real>)
    requires Layered(ns) && i < |ns| && ns[i].computeFn.None?
    ensures Layered(ns[i := ns[i].(value := v)]) && Eval(ns[i := ns[i].(value := v)], i) == v
  {
    WiringLayered(ns, ns[i := ns[i].(value := v)]);
  }

  /** Entering an override, any number of reads, then leaving it: every
      node reports what it did before, provided no dependency was None
      beforehand. Reads change only nodes with a compute function and keep
      their wiring, which is all this asks of `during`. */
  lemma OverrideRestores(before: seq<Node>, during: seq<Node>, i: nat, temp: Option<real>)
    requires Layered(before) && Defined(before) && i < |before|
    requires SameWiring(before, during) && InputsKept(before[i := before[i].(value := temp)], during)
    ensures Layered(during[i := during[i].(value := before[i].value)])
    ensures EvalKept(before, during[i := during[i].(value := before[i].value)])
  {
    var after := during[i := during[i].(value := before[i].value)];
    assert SameWiring(before, after);
    assert InputsKept(before, after) by {
      forall j | 0 <= j < |before| && before[j].computeFn.None? ensures after[j] == before[j] {
        if j != i {
          assert during[j] == before[i := before[i].(value := temp)][j];
        }
      }
    }
    forall j | 0 <= j < |before| ensures Layered(after) && Eval(after, j) == Eval(before, j) {
      InputsDecide(before, after, j);
    }
    WiringLayered(before, after);
  }

  // -- the usage example ---------------------------------------------------------

  /** The usage example's arena with fx holding `fx`: two settable input
      nodes, spot holding 100.0, and usd_price multiplying them, whatever
      it has stored. */
  ghost predicate Shaped(ns: seq<Node>, fx: real)
  {
    |ns| == 3 &&
    ns[0] == Node(None, [], Some(100.0), true) &&
    ns[1] == Node(None, [], Some(fx), true) &&
    ns[2].computeFn == Some(LazyGraph.UsdPrice) && ns[2].dependencies == [0, 1] && !ns[2].canSet
  }

  /** usd_price reports 100.0 times fx, and no dependency is None. */
  lemma ExampleValues(ns: seq<Node>, fx: real)
    requires Shaped(ns, fx)
    ensures Layered(ns) && Defined(ns) && Eval(ns, 2) == Some(100.0 * fx)
  {
    var args := Args(ns, [0, 1], 2);
    assert args == [Some(100.0), Some(fx)];
    assert LazyGraph.Unwrap(args) == [100.0, fx];
  }

  /** The usage example's three calls: `input("spot", 100.0)`,
      `input("fx", 0.95)` and `usd_price_pt(spot_pt, fx_pt)`. */
  method ExampleGraph() returns (wub: WubGraphPyTorch)
    ensures fresh(wub) && wub.Valid() && Shaped(wub.nodes, 0.95) && wub.inputs == map["spot" := 0, "fx" := 1]
  {
    wub := new WubGraphPyTorch();
    var spot := wub.Input("spot", Some(100.0));
    var fx := wub.Input("fx", Some(0.95));
    LazyGraph.ExampleArgs();
    var usd := wub.Fn(LazyGraph.UsdPrice, [LazyGraph.NodeArg(spot), LazyGraph.NodeArg(fx)]);
  }

  /** The `with fx_pt.override(1.0)` block: usd_price reads 100.0 inside
      it, and fx holds 0.95 again afterwards. */
  method ExampleOverride(wub: WubGraphPyTorch) returns (during: Option<real>)
    requires wub.Valid() && Shaped(wub.nodes, 0.95)
    modifies wub
    ensures wub.Valid() && Shaped(wub.nodes, 0.95) && during == Some(100.0)
  {
    var ctx := wub.Override(1, Some(1.0));
    var _ := ctx.Enter();
    ExampleValues(wub.nodes, 1.0);
    during := wub.GetValue(2);
    ctx.Exit();
  }

  /** The usage example: usd_price reports 100.0 * 0.95, then 100.0 while
      fx is overridden with 1.0, then 95.0 again. */
  method UsageExample() returns (first: Option<real>, during: Option<real>, after: Option<real>)
    ensures first == Some(95.0) && during == Some(100.0) && after == Some(95.0)
  {
    var wub := ExampleGraph();
    ExampleValues(wub.nodes, 0.95);
    first := wub.GetValue(2);
    during := ExampleOverride(wub);
    ExampleValues(wub.nodes, 0.95);
    after := wub.GetValue(2);
  }

  /** Twice the single argument. */
  function Double(a: seq<real>): Option<real>
  {
    if |a| == 1 then Some(2.0 * a[0]) else None
  }

  /** An input holding `x` and a node doubling it, whatever it has stored. */
  ghost predicate Doubling(ns: seq<Node>, x: Option<real>)
  {
    |ns| == 2 &&
    ns[0] == Node(None, [], x, true) &&
    ns[1].computeFn == Some(Double) && ns[1].dependencies == [0] && !ns[1].canSet
  }

  /** The doubling node reports twice the input, or what it has stored
      while the input is None. */
  lemma DoublingValues(ns: seq<Node>, x: Option<real>)
    requires Doubling(ns, x)
    ensures Layered(ns) && Eval(ns, 1) == if x.Some? then Some(2.0 * x.value) else ns[1].value
  {
    var args := Args(ns, [0], 1);
    assert args == [x];
    if x.Some? {
      assert LazyGraph.Unwrap(args) == [x.value];
    }
  }

  /** Leaving an override need not restore what a node reports when a
      dependency was None before it: with an input `x` holding None, a node
      doubling `x` reports None; read once inside `with x.override(1.0)`,
      it keeps the 2.0 computed there once the override is left, because
      `compute` keeps the stored value while a dependency is None. */
  method OverrideOverMissing() returns (before: Option<real>, during: Option<real>, after: Option<real>)
    ensures before == None && during == Some(2.0) && after == Some(2.0)
  {
    var wub := new WubGraphPyTorch();
    var x := wub.Input("x", None);
    LazyGraph.SingleArg(x);
    var y := wub.Fn(Double, [LazyGraph.NodeArg(x)]);
    DoublingValues(wub.nodes, None);
    before := wub.GetValue(1);
    var ctx := wub.Override(0, Some(1.0));
    var _ := ctx.Enter();
    DoublingValues(wub.nodes, Some(1.0));
    during := wub.GetValue(1);
    ctx.Exit();
    DoublingValues(wub.nodes, None);
    after := wub.GetValue(1);
  }
}
