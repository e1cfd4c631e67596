/** The TensorFlow-style symbolic graph: `input` and `fn` only describe the
    graph; `execute` sorts it with Kahn's algorithm, feeds the inputs and
    applies each operation once, in that order.

    Every SymbolicNodeRaw ever created lives in an arena (`RawGraph.nodes`)
    at the position it was created in. An operation's inputs are nodes that
    were registered when it was created, so they sit at lower positions and
    no cycle can be built. Each of the two dicts, `symbolic_inputs` and
    `symbolic_nodes`, is its keys in insertion order plus the map from key
    to arena position: a name registered again keeps its place and points
    at the new node, and the old node stays in the arena (an operation may
    still use it). The defaultdicts keyed by node become sequences indexed
    by arena position. User functions are abstract total functions from
    the input values to a value. */
module TFGraph {
  import opened Wrappers
  import TopoSort

  datatype Error = ValueError(message: string) | KeyError(key: string)

  type Operation = seq<real> -> real

  /** A SymbolicNodeRaw: its name, its function (None for an input) and the
      arena positions of its input nodes. */
  datatype SymNode = SymNode(name: string, operation: Option<Operation>, inputs: seq<nat>)

  const CycleMessage := "Cycle detected in the computation graph"

  function MissingInput(name: string): string
  {
    "Missing input value for '" + name + "'"
  }

  // -- dicts -----------------------------------------------------------------

  /** Looking every key up in order, as a list comprehension over a dict
      does: the values, or the position of the first key that is missing. */
  function LookupAll<K, V>(table: map<K, V>, ks: seq<K>): (r: Result<seq<V>, nat>)
    ensures r.Success? <==> forall i | 0 <= i < |ks| :: ks[i] in table
    ensures r.Success? ==> |r.value| == |ks| && forall i | 0 <= i < |ks| :: r.value[i] == table[ks[i]]
    ensures r.Failure? ==> r.error < |ks| && ks[r.error] !in table &&
                           forall i | 0 <= i < r.error :: ks[i] in table
  {
    if |ks| == 0 then Success([])
    else if ks[0] !in table then Failure(0)
    else
      match LookupAll(table, ks[1..])
      case Failure(j) => Failure(j + 1)
      case Success(vs) => Success([table[ks[0]]] + vs)
  }

  /** A dict: distinct keys in insertion order, and the map over them. */
  ghost predicate Keyed(keys: seq<string>, table: map<string, nat>)
  {
    (forall a, b | 0 <= a < b < |keys| :: keys[a] != keys[b]) &&
    (forall k :: k in table <==> k in keys)
  }

  /** The key order after `d[k] = v`: a new key goes last, a present one
      keeps its place. */
  function Insert(keys: seq<string>, k: string): seq<string>
  {
    if k in keys then keys else keys + [k]
  }

  /** Assigning a key keeps a dict a dict. */
  lemma InsertKeyed(keys: seq<string>, table: map<string, nat>, k: string, v: nat)
    requires Keyed(keys, table)
    ensures Keyed(Insert(keys, k), table[k := v])
  {
    if k !in keys {
      forall a | 0 <= a < |keys| ensures keys[a] != k {
        assert keys[a] in keys;
      }
    }
  }

  /** `d.values()`, in insertion order. */
  function Values(keys: seq<string>, table: map<string, nat>): (r: seq<nat>)
    requires forall i | 0 <= i < |keys| :: keys[i] in table
    ensures |r| == |keys| && forall i | 0 <= i < |keys| :: r[i] == table[keys[i]]
  {
    seq(|keys|, i requires 0 <= i < |keys| => table[keys[i]])
  }

  /** The names of a feed dict's items, in order. */
  function FeedNames(feed: seq<(string, real)>): (r: seq<string>)
    ensures |r| == |feed| && forall i | 0 <= i < |feed| :: r[i] == feed[i].0
  {
    seq(|feed|, i requires 0 <= i < |feed| => feed[i].0)
  }

  // -- the arena ---------------------------------------------------------------

  /** Every input of a node sits below it. */
  predicate Layered(nodes: seq<SymNode>)
  {
    forall v | 0 <= v < |nodes| :: forall k | 0 <= k < |nodes[v].inputs| :: nodes[v].inputs[k] < v
  }

  /** Node `v` is what `table` holds under its name. */
  predicate Holds(nodes: seq<SymNode>, table: map<string, nat>, v: nat)
    requires v < |nodes|
  {
    nodes[v].name in table && table[nodes[v].name] == v
  }

  /** The consistency the two dicts keep: each key names the node stored
      under it, inputs are nodes without a function or inputs, and a
      registered node without a function is the input of that name. */
  ghost predicate Wellformed(nodes: seq<SymNode>, inputKeys: seq<string>, inputTable: map<string, nat>,
                             nodeKeys: seq<string>, nodeTable: map<string, nat>)
  {
    Keyed(inputKeys, inputTable) && Keyed(nodeKeys, nodeTable) && Layered(nodes) && Bare(nodes) &&
    InputEntries(nodes, inputTable) && Entries(nodes, nodeTable) && InputsRegistered(nodes, inputTable, nodeTable)
  }

  /** A node without a function has no inputs. */
  predicate Bare(nodes: seq<SymNode>)
  {
    forall v | 0 <= v < |nodes| :: nodes[v].operation.None? ==> nodes[v].inputs == []
  }

  /** Each key of `table` names the node stored under it. */
  predicate Entries(nodes: seq<SymNode>, table: map<string, nat>)
  {
    forall k | k in table :: table[k] < |nodes| && nodes[table[k]].name == k
  }

  /** The inputs dict stores nodes without a function, each under its name. */
  predicate InputEntries(nodes: seq<SymNode>, inputTable: map<string, nat>)
  {
    Entries(nodes, inputTable) && forall k | k in inputTable :: nodes[inputTable[k]].operation.None?
  }

  /** A registered node without a function is the input of its name. */
  predicate InputsRegistered(nodes: seq<SymNode>, inputTable: map<string, nat>, nodeTable: map<string, nat>)
    requires Entries(nodes, nodeTable)
  {
    forall k | k in nodeTable && nodes[nodeTable[k]].operation.None? :: k in inputTable && inputTable[k] == nodeTable[k]
  }

  /** `input` keeps the dicts consistent: the new node is registered as
      the input and the node of its name. */
  lemma InputKeeps(nodes: seq<SymNode>, inputKeys: seq<string>, inputTable: map<string, nat>,
                   nodeKeys: seq<string>, nodeTable: map<string, nat>, name: string)
    requires Wellformed(nodes, inputKeys, inputTable, nodeKeys, nodeTable)
    ensures Wellformed(nodes + [SymNode(name, None, [])], Insert(inputKeys, name), inputTable[name := |nodes|],
                       Insert(nodeKeys, name), nodeTable[name := |nodes|])
  {
    var nodes' := nodes + [SymNode(name, None, [])];
    InsertKeyed(inputKeys, inputTable, name, |nodes|);
    InsertKeyed(nodeKeys, nodeTable, name, |nodes|);
    Grown(nodes, nodes');
    EntriesGrow(nodes, nodes', inputTable, name);
    EntriesGrow(nodes, nodes', nodeTable, name);
    InputEntriesGrow(nodes, nodes', inputTable, name);
    InputsRegisteredGrow(nodes, nodes', inputTable, nodeTable, name);
  }

  /** `fn` keeps the dicts consistent: the new operation's inputs are
      nodes already in the arena, and it replaces whatever node its name
      held in `symbolic_nodes`. */
  lemma FnKeeps(nodes: seq<SymNode>, inputKeys: seq<string>, inputTable: map<string, nat>,
                nodeKeys: seq<string>, nodeTable: map<string, nat>, name: string, operation: Operation, argNames: seq<string>)
    requires Wellformed(nodes, inputKeys, inputTable, nodeKeys, nodeTable)
    requires LookupAll(nodeTable, argNames).Success?
    ensures Wellformed(nodes + [SymNode(name, Some(operation), LookupAll(nodeTable, argNames).value)], inputKeys, inputTable,
                       Insert(nodeKeys, name), nodeTable[name := |nodes|])
  {
    var args := LookupAll(nodeTable, argNames).value;
    forall k | 0 <= k < |args| ensures args[k] < |nodes| {
      assert argNames[k] in nodeTable;
    }
    var nodes' := nodes + [SymNode(name, Some(operation), args)];
    InsertKeyed(nodeKeys, nodeTable, name, |nodes|);
    Grown(nodes, nodes');
    InputEntriesGrow(nodes, nodes', inputTable, name);
    InputsRegisteredGrow(nodes, nodes', inputTable, nodeTable, name);
  }

  /** Appending a node whose inputs sit below it, and which has inputs
      only if it has a function, keeps the arena layered and bare. */
  lemma Grown(nodes: seq<SymNode>, nodes': seq<SymNode>)
    requires Layered(nodes) && Bare(nodes)
    requires |nodes'| == |nodes| + 1 && nodes'[..|nodes|] == nodes
    requires forall k | 0 <= k < |nodes'[|nodes|].inputs| :: nodes'[|nodes|].inputs[k] < |nodes|
    requires nodes'[|nodes|].operation.None? ==> nodes'[|nodes|].inputs == []
    ensures Layered(nodes') && Bare(nodes')
  {
    assert forall w | 0 <= w < |nodes| :: nodes'[w] == nodes'[..|nodes|][w];
  }

  /** Storing the new last node under its own name keeps a table's
      entries right. */
  lemma EntriesGrow(nodes: seq<SymNode>, nodes': seq<SymNode>, table: map<string, nat>, name: string)
    requires Entries(nodes, table)
    requires |nodes'| == |nodes| + 1 && nodes'[..|nodes|] == nodes && nodes'[|nodes|].name == name
    ensures Entries(nodes', table[name := |nodes|])
  {
    assert forall w | 0 <= w < |nodes| :: nodes'[w] == nodes'[..|nodes|][w];
  }

  /** The inputs dict keeps its entries when a node is appended, and, when
      it is given the new node, that node has no function. */
  lemma InputEntriesGrow(nodes: seq<SymNode>, nodes': seq<SymNode>, inputTable: map<string, nat>, name: string)
    requires InputEntries(nodes, inputTable)
    requires |nodes'| == |nodes| + 1 && nodes'[..|nodes|] == nodes && nodes'[|nodes|].name == name
    ensures InputEntries(nodes', inputTable)
    ensures nodes'[|nodes|].operation.None? ==> InputEntries(nodes', inputTable[name := |nodes|])
  {
    assert forall w | 0 <= w < |nodes| :: nodes'[w] == nodes'[..|nodes|][w];
  }

  /** Giving a name the new last node keeps every registered node without
      a function the input of its name: when the inputs dict gives that
      name the new node too, and, whatever the inputs dict, when the new
      node has a function. */
  lemma InputsRegisteredGrow(nodes: seq<SymNode>, nodes': seq<SymNode>, inputTable: map<string, nat>,
                             nodeTable: map<string, nat>, name: string)
    requires Entries(nodes, nodeTable) && InputsRegistered(nodes, inputTable, nodeTable)
    requires |nodes'| == |nodes| + 1 && nodes'[..|nodes|] == nodes && nodes'[|nodes|].name == name
    ensures Entries(nodes', nodeTable[name := |nodes|])
    ensures InputsRegistered(nodes', inputTable[name := |nodes|], nodeTable[name := |nodes|])
    ensures nodes'[|nodes|].operation.Some? ==> InputsRegistered(nodes', inputTable, nodeTable[name := |nodes|])
  {
    EntriesGrow(nodes, nodes', nodeTable, name);
    assert forall w | 0 <= w < |nodes| :: nodes'[w] == nodes'[..|nodes|][w];
  }

  /** No name was ever registered twice: every node ever created is the one
      `symbolic_nodes` holds under its name. */
  predicate Unique(nodes: seq<SymNode>, nodeTable: map<string, nat>)
  {
    forall v | 0 <= v < |nodes| :: Holds(nodes, nodeTable, v)
  }

  /** What `_build_dependency_graph` sees: the inputs of every registered
      node, nothing of a node no longer registered. */
  function Deps(nodes: seq<SymNode>, nodeTable: map<string, nat>): (deps: seq<seq<nat>>)
    ensures |deps| == |nodes|
    ensures forall v | 0 <= v < |nodes| :: deps[v] == if Holds(nodes, nodeTable, v) then nodes[v].inputs else []
  {
    seq(|nodes|, v requires 0 <= v < |nodes| => if Holds(nodes, nodeTable, v) then nodes[v].inputs else [])
  }

  /** The nodes the sort emits: the inputs `symbolic_inputs` holds, and
      every registered operation with at least one input, all of them
      emitted. */
  ghost predicate Emits(nodes: seq<SymNode>, inputTable: map<string, nat>, nodeTable: map<string, nat>, v: nat)
    requires Layered(nodes) && v < |nodes|
    decreases v
  {
    Holds(nodes, inputTable, v) ||
    (Holds(nodes, nodeTable, v) && nodes[v].inputs != [] &&
     forall k | 0 <= k < |nodes[v].inputs| :: Emits(nodes, inputTable, nodeTable, nodes[v].inputs[k]))
  }

  ghost function Emitted(nodes: seq<SymNode>, inputTable: map<string, nat>, nodeTable: map<string, nat>): set<nat>
    requires Layered(nodes)
  {
    set v | 0 <= v < |nodes| && Emits(nodes, inputTable, nodeTable, v)
  }

  /** Each listed node comes after all of its inputs. */
  predicate InputsFirst(nodes: seq<SymNode>, s: seq<nat>)
  {
    forall i | 0 <= i < |s| :: s[i] < |nodes| && forall x | x in nodes[s[i]].inputs :: x in s[..i]
  }

  // -- building ----------------------------------------------------------------

  /** Node `w` is registered under one of the keys `ks`. */
  predicate Visited(nodes: seq<SymNode>, nodeTable: map<string, nat>, ks: seq<string>, w: nat)
    requires w < |nodes|
  {
    Holds(nodes, nodeTable, w) && nodes[w].name in ks
  }

  /** The dependents lists and in-degrees once the nodes under the keys
      `ks` have been entered. */
  ghost predicate BuiltFrom(nodes: seq<SymNode>, nodeTable: map<string, nat>, ks: seq<string>,
                            adj: seq<seq<nat>>, indeg: seq<int>)
  {
    |adj| == |nodes| && |indeg| == |nodes| &&
    (forall u | 0 <= u < |nodes| :: TopoSort.Nodes(adj[u], |nodes|)) &&
    (forall u, w | 0 <= u < |nodes| && 0 <= w < |nodes| ::
       TopoSort.Occ(w, adj[u]) == if Visited(nodes, nodeTable, ks, w) then TopoSort.Occ(u, nodes[w].inputs) else 0) &&
    (forall w | 0 <= w < |nodes| :: indeg[w] == if Visited(nodes, nodeTable, ks, w) then |nodes[w].inputs| else 0)
  }

  lemma BuiltNone(nodes: seq<SymNode>, nodeTable: map<string, nat>, adj: seq<seq<nat>>, indeg: seq<int>)
    requires |adj| == |nodes| && |indeg| == |nodes|
    requires forall u | 0 <= u < |nodes| :: adj[u] == [] && indeg[u] == 0
    ensures BuiltFrom(nodes, nodeTable, [], adj, indeg)
  {
  }

  /** The node under key `p` is the one the next key adds. */
  lemma VisitStep(nodes: seq<SymNode>, nodeKeys: seq<string>, nodeTable: map<string, nat>, p: nat)
    requires Keyed(nodeKeys, nodeTable) && p < |nodeKeys|
    requires forall k | k in nodeTable :: nodeTable[k] < |nodes| && nodes[nodeTable[k]].name == k
    ensures nodeTable[nodeKeys[p]] < |nodes|
    ensures forall w | 0 <= w < |nodes| ::
              Visited(nodes, nodeTable, nodeKeys[..p + 1], w) <==>
              Visited(nodes, nodeTable, nodeKeys[..p], w) || w == nodeTable[nodeKeys[p]]
    ensures !Visited(nodes, nodeTable, nodeKeys[..p], nodeTable[nodeKeys[p]])
  {
    var k := nodeKeys[p];
    assert k in nodeKeys;
    var v := nodeTable[k];
    assert Holds(nodes, nodeTable, v);
    assert nodeKeys[..p + 1] == nodeKeys[..p] + [k];
    assert k !in nodeKeys[..p] by {
      forall a | 0 <= a < p ensures nodeKeys[..p][a] != k {
        assert nodeKeys[..p][a] == nodeKeys[a];
      }
    }
    forall w | 0 <= w < |nodes|
      ensures Visited(nodes, nodeTable, nodeKeys[..p + 1], w) <==>
              Visited(nodes, nodeTable, nodeKeys[..p], w) || w == v
    {
      assert nodes[w].name in nodeKeys[..p + 1] <==> nodes[w].name in nodeKeys[..p] || nodes[w].name == k;
      if Holds(nodes, nodeTable, w) && nodes[w].name == k {
        assert w == v;
      }
    }
  }

  /** Entering node `v`, not entered before: its inputs' lists gain it once
      per occurrence and its in-degree gains the number of its inputs. */
  lemma BuiltStep(nodes: seq<SymNode>, nodeTable: map<string, nat>, ks: seq<string>, ks': seq<string>, v: nat,
                  adj: seq<seq<nat>>, indeg: seq<int>, adj': seq<seq<nat>>, indeg': seq<int>)
    requires BuiltFrom(nodes, nodeTable, ks, adj, indeg) && v < |nodes|
    requires forall w | 0 <= w < |nodes| :: Visited(nodes, nodeTable, ks', w) <==> Visited(nodes, nodeTable, ks, w) || w == v
    requires !Visited(nodes, nodeTable, ks, v)
    requires |adj'| == |adj|
    requires forall u | 0 <= u < |adj| :: forall x | x in adj'[u] :: x in adj[u] || x == v
    requires forall u, w | 0 <= u < |adj| ::
               TopoSort.Occ(w, adj'[u]) == TopoSort.Occ(w, adj[u]) + (if w == v then TopoSort.Occ(u, nodes[v].inputs) else 0)
    requires indeg' == indeg[v := indeg[v] + |nodes[v].inputs|]
    ensures BuiltFrom(nodes, nodeTable, ks', adj', indeg')
  {
    var n := |nodes|;
    forall u | 0 <= u < n ensures TopoSort.Nodes(adj'[u], n) {
      forall i | 0 <= i < |adj'[u]| ensures adj'[u][i] < n {
        assert adj'[u][i] in adj'[u];
        if adj'[u][i] != v {
          var k :| 0 <= k < |adj[u]| && adj[u][k] == adj'[u][i];
        }
      }
    }
  }

  /** The graph the sort sees names only nodes of the arena. */
  lemma DepsClosed(nodes: seq<SymNode>, nodeTable: map<string, nat>)
    requires Layered(nodes)
    ensures TopoSort.Closed(Deps(nodes, nodeTable))
  {
    var deps := Deps(nodes, nodeTable);
    forall v | 0 <= v < |deps| ensures TopoSort.Nodes(deps[v], |deps|) {
      forall k | 0 <= k < |deps[v]| ensures deps[v][k] < |deps| {
        assert deps[v][k] == nodes[v].inputs[k];
      }
    }
  }

  /** Once every key is entered, the lists and counts are those of `Deps`. */
  lemma BuiltAll(nodes: seq<SymNode>, nodeTable: map<string, nat>, ks: seq<string>, adj: seq<seq<nat>>, indeg: seq<int>)
    requires BuiltFrom(nodes, nodeTable, ks, adj, indeg)
    requires forall k | k in nodeTable :: k in ks
    ensures TopoSort.Built(Deps(nodes, nodeTable), adj, indeg)
  {
    forall w | 0 <= w < |nodes| ensures Visited(nodes, nodeTable, ks, w) == Holds(nodes, nodeTable, w) {
    }
  }

  // -- evaluation --------------------------------------------------------------

  /** What node `v` evaluates to from the fed input values: an input its fed
      value, an operation its function applied to its inputs' values when
      all of them have one. */
  function Value(nodes: seq<SymNode>, fed: map<nat, real>, v: nat): Option<real>
    requires Layered(nodes) && v < |nodes|
    decreases v, 1
  {
    match nodes[v].operation
    case None => if v in fed then Some(fed[v]) else None
    case Some(f) =>
      var args := Args(nodes, fed, v, |nodes[v].inputs|);
      if args.Some? then Some(f(args.value)) else None
  }

  /** The values of the first `n` inputs of `v`, when all of them have one. */
  function Args(nodes: seq<SymNode>, fed: map<nat, real>, v: nat, n: nat): (r: Option<seq<real>>)
    requires Layered(nodes) && v < |nodes| && n <= |nodes[v].inputs|
    ensures r.Some? <==> forall k | 0 <= k < n :: Value(nodes, fed, nodes[v].inputs[k]).Some?
    ensures r.Some? ==> (|r.value| == n &&
              forall k | 0 <= k < n :: r.value[k] == Value(nodes, fed, nodes[v].inputs[k]).value)
    decreases v, 0, n
  {
    if n == 0 then Some([])
    else
      var p := Args(nodes, fed, v, n - 1);
      var x := Value(nodes, fed, nodes[v].inputs[n - 1]);
      if p.Some? && x.Some? then Some(p.value + [x.value]) else None
  }

  /** The fed values by node: each item whose name is an input, a later
      item for the same name winning. */
  function FedMap(inputTable: map<string, nat>, feed: seq<(string, real)>): (r: map<nat, real>)
    ensures forall x | x in r :: x in inputTable.Values
    ensures forall i | 0 <= i < |feed| && feed[i].0 in inputTable :: inputTable[feed[i].0] in r
  {
    if |feed| == 0 then map[]
    else
      var m := FedMap(inputTable, feed[..|feed| - 1]);
      var item := feed[|feed| - 1];
      assert forall i | 0 <= i < |feed| - 1 :: feed[..|feed| - 1][i] == feed[i];
      if item.0 in inputTable then m[inputTable[item.0] := item.1] else m
  }

  /** Every emitted operation has a value. */
  ghost predicate Computable(nodes: seq<SymNode>, inputTable: map<string, nat>, nodeTable: map<string, nat>,
                             fed: map<nat, real>)
    requires Layered(nodes)
  {
    forall v | 0 <= v < |nodes| && nodes[v].operation.Some? && Emits(nodes, inputTable, nodeTable, v) ::
      Value(nodes, fed, v).Some?
  }

  /** What `execute` reports for a registered node: an input its fed value,
      an emitted operation its value, an operation the sort never reached
      None. */
  ghost function Reported(nodes: seq<SymNode>, inputTable: map<string, nat>, nodeTable: map<string, nat>,
                          fed: map<nat, real>, v: nat): Option<real>
    requires Layered(nodes) && v < |nodes|
  {
    if nodes[v].operation.None? || Emits(nodes, inputTable, nodeTable, v) then Value(nodes, fed, v) else None
  }

  // -- the graph object ----------------------------------------------------------

  class RawGraph {
    var nodes: seq<SymNode>
    var inputKeys: seq<string>
    var inputTable: map<string, nat>
    var nodeKeys: seq<string>
    var nodeTable: map<string, nat>

    ghost predicate Valid()
      reads this
    {
      Wellformed(nodes, inputKeys, inputTable, nodeKeys, nodeTable)
    }

    constructor()
      ensures Valid() && nodes == [] && inputKeys == [] && inputTable == map[]
      ensures nodeKeys == [] && nodeTable == map[]
    {
      nodes := [];
      inputKeys := [];
      inputTable := map[];
      nodeKeys := [];
      nodeTable := map[];
    }

    /** `input`: a new node without a function or inputs, stored under its
        name in both dicts. */
    method Input(name: string) returns (v: nat)
      requires Valid()
      modifies this
      ensures Valid() && v == |old(nodes)|
      ensures nodes == old(nodes) + [SymNode(name, None, [])]
      ensures inputTable == old(inputTable)[name := v] && inputKeys == Insert(old(inputKeys), name)
      ensures nodeTable == old(nodeTable)[name := v] && nodeKeys == Insert(old(nodeKeys), name)
    {
      v := |nodes|;
      InputKeeps(nodes, inputKeys, inputTable, nodeKeys, nodeTable, name);
      nodes := nodes + [SymNode(name, None, [])];
      inputKeys := Insert(inputKeys, name);
      inputTable := inputTable[name := v];
      nodeKeys := Insert(nodeKeys, name);
      nodeTable := nodeTable[name := v];
    }

    /** `fn(func)(*arg_names)`: the argument names are looked up in
        `symbolic_nodes` in order, the first missing one a KeyError that
        changes nothing; otherwise a new node with the function and those
        inputs is stored under the function's name. */
    method Fn(name: string, operation: Operation, argNames: seq<string>) returns (r: Result<nat, Error>)
      requires Valid()
      modifies this
      ensures Valid() && inputKeys == old(inputKeys) && inputTable == old(inputTable)
      ensures LookupAll(old(nodeTable), argNames).Failure? ==>
                r == Failure(KeyError(argNames[LookupAll(old(nodeTable), argNames).error])) &&
                nodes == old(nodes) && nodeKeys == old(nodeKeys) && nodeTable == old(nodeTable)
      ensures LookupAll(old(nodeTable), argNames).Success? ==>
                r == Success(|old(nodes)|) &&
                nodes == old(nodes) + [SymNode(name, Some(operation), LookupAll(old(nodeTable), argNames).value)] &&
                nodeTable == old(nodeTable)[name := |old(nodes)|] && nodeKeys == Insert(old(nodeKeys), name)
    {
      var found := LookupAll(nodeTable, argNames);
      if found.Failure? {
        return Failure(KeyError(argNames[found.error]));
      }
      var v := |nodes|;
      FnKeeps(nodes, inputKeys, inputTable, nodeKeys, nodeTable, name, operation, argNames);
      nodes := nodes + [SymNode(name, Some(operation), found.value)];
      nodeKeys := Insert(nodeKeys, name);
      nodeTable := nodeTable[name := v];
      r := Success(v);
    }

    /** `_build_dependency_graph`: for every registered node, in key order,
        and each of its inputs, the node is appended to its input's list and
        its in-degree is raised; so each in-degree is the number of inputs. */
    method BuildDependencyGraph() returns (adj: seq<seq<nat>>, indeg: seq<int>)
      requires Valid()
      ensures TopoSort.Built(Deps(nodes, nodeTable), adj, indeg)
    {
      var n := |nodes|;
      adj := seq(n, _ => []);
      indeg := seq(n, _ => 0);
      BuiltNone(nodes, nodeTable, adj, indeg);
      assert nodeKeys[..0] == [];
      var p := 0;
      while p < |nodeKeys|
        invariant p <= |nodeKeys| && BuiltFrom(nodes, nodeTable, nodeKeys[..p], adj, indeg)
      {
        var v := nodeTable[nodeKeys[p]];
        VisitStep(nodes, nodeKeys, nodeTable, p);
        assert TopoSort.Nodes(nodes[v].inputs, |adj|);
        var adj' := TopoSort.AppendEverywhere(adj, nodes[v].inputs, v);
        var indeg' := indeg[v := indeg[v] + |nodes[v].inputs|];
        BuiltStep(nodes, nodeTable, nodeKeys[..p], nodeKeys[..p + 1], v, adj, indeg, adj', indeg');
        adj, indeg := adj', indeg';
        p := p + 1;
      }
      assert nodeKeys[..p] == nodeKeys;
      BuiltAll(nodes, nodeTable, nodeKeys, adj, indeg);
    }

    /** `topological_sort`: Kahn's algorithm seeded with the inputs of
        in-degree zero. It succeeds exactly when it emits as many nodes as
        `symbolic_nodes` holds, and otherwise raises the cycle ValueError;
        it emits exactly the nodes `Emits` describes, once each, each after
        all of its inputs. */
    method TopologicalSort() returns (r: Result<seq<nat>, Error>)
      requires Valid()
      ensures r.Success? <==> |Emitted(nodes, inputTable, nodeTable)| == |nodeKeys|
      ensures r.Failure? ==> r.error == ValueError(CycleMessage)
      ensures r.Success? ==> TopoSort.Distinct(r.value) && InputsFirst(nodes, r.value)
      ensures r.Success? ==> forall v | 0 <= v < |nodes| :: v in r.value <==> Emits(nodes, inputTable, nodeTable, v)
    {
      var adj, indeg := BuildDependencyGraph();
      ghost var deps := Deps(nodes, nodeTable);
      var values := Values(inputKeys, inputTable);
      InputsDistinct();
      var start := Seeds(values, indeg);
      StartReady(nodes, inputTable, nodeTable, values, indeg, start);
      var sorted := TopoSort.Kahn(deps, adj, indeg, start);
      SortedEmits(start, sorted);
      if |sorted| != |nodeKeys| {
        return Failure(ValueError(CycleMessage));
      }
      return Success(sorted);
    }

    /** The inputs dict holds distinct nodes, each of them without inputs. */
    lemma InputsDistinct()
      requires Valid()
      ensures TopoSort.Distinct(Values(inputKeys, inputTable))
      ensures TopoSort.Nodes(Values(inputKeys, inputTable), |nodes|)
      ensures forall v: nat :: v in Values(inputKeys, inputTable) <==> v < |nodes| && Holds(nodes, inputTable, v)
      ensures forall v | v in Values(inputKeys, inputTable) :: nodes[v].inputs == []
    {
      var vs := Values(inputKeys, inputTable);
      forall a, b | 0 <= a < b < |vs| ensures vs[a] != vs[b] {
        assert nodes[vs[a]].name == inputKeys[a] && nodes[vs[b]].name == inputKeys[b];
      }
      forall v: nat | v < |nodes| && Holds(nodes, inputTable, v) ensures v in vs {
        var i :| 0 <= i < |inputKeys| && inputKeys[i] == nodes[v].name;
        assert vs[i] == v;
      }
    }

    /** What Kahn's loop leaves, read back on the arena: exactly the
        emitted nodes, each after its inputs, and as many of them as
        `Emitted` holds. */
    lemma SortedEmits(start: seq<nat>, sorted: seq<nat>)
      requires Valid()
      requires forall x: nat :: x in start <==> x < |nodes| && Holds(nodes, inputTable, x)
      requires TopoSort.Distinct(sorted) && TopoSort.Nodes(sorted, |nodes|)
      requires TopoSort.Ordered(Deps(nodes, nodeTable), sorted)
      requires TopoSort.Released(Deps(nodes, nodeTable), start, sorted)
      ensures forall v | 0 <= v < |nodes| :: v in sorted <==> Emits(nodes, inputTable, nodeTable, v)
      ensures |sorted| == |Emitted(nodes, inputTable, nodeTable)|
      ensures InputsFirst(nodes, sorted)
    {
      forall v | 0 <= v < |nodes| ensures v in sorted <==> Emits(nodes, inputTable, nodeTable, v) {
        ReleasedEmits(nodes, inputTable, nodeTable, start, sorted, v);
      }
      TopoSort.DistinctSize(sorted);
      assert TopoSort.Elems(sorted) == Emitted(nodes, inputTable, nodeTable) by {
        forall x | x in TopoSort.Elems(sorted) ensures x < |nodes| {
          var i :| 0 <= i < |sorted| && sorted[i] == x;
        }
      }
      forall i | 0 <= i < |sorted| ensures forall x | x in nodes[sorted[i]].inputs :: x in sorted[..i] {
        var v := sorted[i];
        if !Holds(nodes, nodeTable, v) {
          assert v in sorted;
          assert Holds(nodes, inputTable, v);
        }
      }
    }

    /** `execute`: the sort's ValueError first; then the feed, an item whose
        name is not an input a ValueError; then each emitted operation in
        order, a KeyError when one of its inputs has no value. On success
        every registered name maps to what `Reported` says. */
    method Execute(feed: seq<(string, real)>) returns (r: Result<map<string, Option<real>>, Error>)
      requires Valid()
      ensures |Emitted(nodes, inputTable, nodeTable)| != |nodeKeys| ==> r == Failure(ValueError(CycleMessage))
      ensures |Emitted(nodes, inputTable, nodeTable)| == |nodeKeys| && LookupAll(inputTable, FeedNames(feed)).Failure? ==>
                r == Failure(ValueError(MissingInput(feed[LookupAll(inputTable, FeedNames(feed)).error].0)))
      ensures |Emitted(nodes, inputTable, nodeTable)| == |nodeKeys| && LookupAll(inputTable, FeedNames(feed)).Success? ==>
                (r.Success? <==> Computable(nodes, inputTable, nodeTable, FedMap(inputTable, feed))) &&
                (r.Failure? ==> r.error.KeyError?)
      ensures r.Success? ==> (r.value.Keys == nodeTable.Keys &&
                forall k | k in nodeTable ::
                  r.value[k] == Reported(nodes, inputTable, nodeTable, FedMap(inputTable, feed), nodeTable[k]))
    {
      var sorted := TopologicalSort();
      if sorted.Failure? {
        return Failure(sorted.error);
      }
      var fed := Feed(inputTable, feed);
      if fed.Failure? {
        return Failure(fed.error);
      }
      FedInputs(feed);
      var outputs := Evaluate(nodes, sorted.value, fed.value);
      ComputableIff(sorted.value, fed.value);
      if outputs.Failure? {
        return Failure(outputs.error);
      }
      var out := outputs.value;
      r := Success(map k | k in nodeTable :: if nodeTable[k] in out then Some(out[nodeTable[k]]) else None);
      ResultsReported(sorted.value, fed.value, out);
    }

    /** Only inputs are fed. */
    lemma FedInputs(feed: seq<(string, real)>)
      requires Valid()
      ensures forall x | x in FedMap(inputTable, feed) :: x < |nodes| && nodes[x].operation.None?
    {
    }

    /** Every emitted operation has a value exactly when every listed one
        has, when the sort lists exactly the emitted nodes. */
    lemma ComputableIff(sorted: seq<nat>, fed: map<nat, real>)
      requires Valid() && TopoSort.Nodes(sorted, |nodes|)
      requires forall v | 0 <= v < |nodes| :: v in sorted <==> Emits(nodes, inputTable, nodeTable, v)
      ensures Computable(nodes, inputTable, nodeTable, fed) <==>
              forall i | 0 <= i < |sorted| && nodes[sorted[i]].operation.Some? :: Value(nodes, fed, sorted[i]).Some?
    {
      if forall i | 0 <= i < |sorted| && nodes[sorted[i]].operation.Some? :: Value(nodes, fed, sorted[i]).Some? {
        forall v | 0 <= v < |nodes| && nodes[v].operation.Some? && Emits(nodes, inputTable, nodeTable, v)
          ensures Value(nodes, fed, v).Some?
        {
          var i :| 0 <= i < |sorted| && sorted[i] == v;
        }
      }
    }

    /** The results dict built from the outputs is what `Reported` says. */
    lemma ResultsReported(sorted: seq<nat>, fed: map<nat, real>, out: map<nat, real>)
      requires Valid() && TopoSort.Nodes(sorted, |nodes|)
      requires forall v | 0 <= v < |nodes| :: v in sorted <==> Emits(nodes, inputTable, nodeTable, v)
      requires forall x | x in fed :: x < |nodes| && nodes[x].operation.None?
      requires forall x :: x in out <==> x in fed || (x in sorted && x < |nodes| && nodes[x].operation.Some?)
      requires forall x | x in out :: x < |nodes| && Value(nodes, fed, x) == Some(out[x])
      ensures forall k | k in nodeTable ::
                (if nodeTable[k] in out then Some(out[nodeTable[k]]) else None) ==
                Reported(nodes, inputTable, nodeTable, fed, nodeTable[k])
    {
      forall k | k in nodeTable
        ensures (if nodeTable[k] in out then Some(out[nodeTable[k]]) else None) ==
                Reported(nodes, inputTable, nodeTable, fed, nodeTable[k])
      {
        var v := nodeTable[k];
        if v !in out && nodes[v].operation.None? {
          assert v !in fed;
        }
      }
    }
  }

  // -- inside `execute` ---------------------------------------------------------

  /** The feed loop of `execute`: each item's value goes to the input of
      its name, a later item winning; the first item whose name is not an
      input is a ValueError. */
  method Feed(inputTable: map<string, nat>, feed: seq<(string, real)>) returns (r: Result<map<nat, real>, Error>)
    ensures LookupAll(inputTable, FeedNames(feed)).Failure? ==>
              r == Failure(ValueError(MissingInput(feed[LookupAll(inputTable, FeedNames(feed)).error].0)))
    ensures LookupAll(inputTable, FeedNames(feed)).Success? ==> r == Success(FedMap(inputTable, feed))
  {
    var fed: map<nat, real> := map[];
    var j := 0;
    while j < |feed|
      invariant j <= |feed|
      invariant forall i | 0 <= i < j :: feed[i].0 in inputTable
      invariant fed == FedMap(inputTable, feed[..j])
    {
      var name := feed[j].0;
      if name !in inputTable {
        return Failure(ValueError(MissingInput(name)));
      }
      assert feed[..j + 1][..j] == feed[..j];
      fed := fed[inputTable[name] := feed[j].1];
      j := j + 1;
    }
    assert feed[..j] == feed;
    return Success(fed);
  }

  /** The loop over the sorted nodes: each operation's function applied to
      its inputs' outputs, the first operation with an input that has no
      output a KeyError. Succeeds exactly when every listed operation has
      a value, and then holds the fed inputs and the listed operations,
      each with its value. */
  method Evaluate(nodes: seq<SymNode>, sorted: seq<nat>, fed: map<nat, real>) returns (r: Result<map<nat, real>, Error>)
    requires Layered(nodes) && InputsFirst(nodes, sorted)
    requires forall x | x in fed :: x < |nodes| && nodes[x].operation.None?
    ensures r.Success? <==> forall i | 0 <= i < |sorted| && nodes[sorted[i]].operation.Some? ::
                              Value(nodes, fed, sorted[i]).Some?
    ensures r.Failure? ==> r.error.KeyError?
    ensures r.Success? ==> forall x :: x in r.value <==> x in fed || (x in sorted && x < |nodes| && nodes[x].operation.Some?)
    ensures r.Success? ==> forall x | x in r.value :: x < |nodes| && Value(nodes, fed, x) == Some(r.value[x])
  {
    var outputs := fed;
    var i := 0;
    assert sorted[..0] == [];
    while i < |sorted|
      invariant i <= |sorted| && Outputs(nodes, sorted, fed, outputs, i)
    {
      var next := EvalStep(nodes, sorted, fed, outputs, i);
      if next.Failure? {
        return Failure(next.error);
      }
      outputs := next.value;
      i := i + 1;
    }
    assert sorted[..i] == sorted;
    forall j | 0 <= j < |sorted| && nodes[sorted[j]].operation.Some? ensures Value(nodes, fed, sorted[j]).Some? {
      assert sorted[j] in outputs;
    }
    return Success(outputs);
  }

  /** The outputs once the first `i` sorted nodes have been run: the fed
      inputs and the operations among them, each with its value. */
  ghost predicate Outputs(nodes: seq<SymNode>, sorted: seq<nat>, fed: map<nat, real>, outputs: map<nat, real>, i: nat)
    requires Layered(nodes) && i <= |sorted|
  {
    (forall x :: x in outputs <==> x in fed || (x in sorted[..i] && x < |nodes| && nodes[x].operation.Some?)) &&
    (forall x | x in outputs :: x < |nodes| && Value(nodes, fed, x) == Some(outputs[x]))
  }

  /** One turn of the loop: an input skipped, an operation applied, or the
      KeyError of an operation whose inputs do not all have outputs. */
  method EvalStep(nodes: seq<SymNode>, sorted: seq<nat>, fed: map<nat, real>, outputs: map<nat, real>, i: nat)
    returns (r: Result<map<nat, real>, Error>)
    requires Layered(nodes) && InputsFirst(nodes, sorted) && i < |sorted|
    requires forall x | x in fed :: x < |nodes| && nodes[x].operation.None?
    requires Outputs(nodes, sorted, fed, outputs, i)
    ensures r.Failure? ==> r.error.KeyError? && nodes[sorted[i]].operation.Some? && Value(nodes, fed, sorted[i]).None?
    ensures r.Success? ==> Outputs(nodes, sorted, fed, r.value, i + 1)
  {
    var u := sorted[i];
    match nodes[u].operation {
      case None =>
        Skipped(nodes, sorted, fed, outputs, i);
        return Success(outputs);
      case Some(f) =>
        var ins := nodes[u].inputs;
        var found := LookupAll(outputs, ins);
        if found.Failure? {
          Unfed(nodes, sorted, fed, outputs, i);
          return Failure(KeyError(nodes[ins[found.error]].name));
        }
        Applied(nodes, sorted, fed, outputs, i);
        return Success(outputs[u := f(found.value)]);
    }
  }

  /** An input in the sorted list adds no output. */
  lemma Skipped(nodes: seq<SymNode>, sorted: seq<nat>, fed: map<nat, real>, outputs: map<nat, real>, i: nat)
    requires Layered(nodes) && InputsFirst(nodes, sorted) && i < |sorted|
    requires Outputs(nodes, sorted, fed, outputs, i) && nodes[sorted[i]].operation.None?
    ensures Outputs(nodes, sorted, fed, outputs, i + 1)
  {
    assert sorted[..i + 1] == sorted[..i] + [sorted[i]];
  }

  /** An operation whose inputs all have outputs gets its function applied
      to them, which is its value. */
  lemma Applied(nodes: seq<SymNode>, sorted: seq<nat>, fed: map<nat, real>, outputs: map<nat, real>, i: nat)
    requires Layered(nodes) && InputsFirst(nodes, sorted) && i < |sorted|
    requires Outputs(nodes, sorted, fed, outputs, i) && nodes[sorted[i]].operation.Some?
    requires LookupAll(outputs, nodes[sorted[i]].inputs).Success?
    ensures Outputs(nodes, sorted, fed,
                    outputs[sorted[i] := nodes[sorted[i]].operation.value(LookupAll(outputs, nodes[sorted[i]].inputs).value)],
                    i + 1)
  {
    var u := sorted[i];
    var ins := nodes[u].inputs;
    var found := LookupAll(outputs, ins);
    assert sorted[..i + 1] == sorted[..i] + [u];
    forall k | 0 <= k < |ins| ensures Value(nodes, fed, ins[k]) == Some(found.value[k]) {
      assert ins[k] in outputs;
    }
    ghost var args := Args(nodes, fed, u, |ins|);
    assert args.value == found.value;
  }

  /** An input of the `i`th listed node without an output has no value, so
      neither has the node. */
  lemma Unfed(nodes: seq<SymNode>, sorted: seq<nat>, fed: map<nat, real>, outputs: map<nat, real>, i: nat)
    requires Layered(nodes) && InputsFirst(nodes, sorted) && i < |sorted|
    requires forall x | x in fed :: x < |nodes| && nodes[x].operation.None?
    requires forall x :: x in outputs <==> x in fed || (x in sorted[..i] && x < |nodes| && nodes[x].operation.Some?)
    requires nodes[sorted[i]].operation.Some?
    requires LookupAll(outputs, nodes[sorted[i]].inputs).Failure?
    ensures Value(nodes, fed, sorted[i]).None?
  {
    var u := sorted[i];
    var j := LookupAll(outputs, nodes[u].inputs).error;
    var x := nodes[u].inputs[j];
    assert x in nodes[u].inputs;
    assert Value(nodes, fed, x).None?;
  }

  /** The sort's queue holds every input `symbolic_inputs` holds, since
      none has an input, and the graph names only its own nodes. */
  lemma StartReady(nodes: seq<SymNode>, inputTable: map<string, nat>, nodeTable: map<string, nat>,
                   vals: seq<nat>, indeg: seq<int>, start: seq<nat>)
    requires Layered(nodes) && |indeg| == |nodes|
    requires forall v | 0 <= v < |nodes| :: indeg[v] == |Deps(nodes, nodeTable)[v]|
    requires TopoSort.Distinct(vals) && TopoSort.Nodes(vals, |nodes|)
    requires forall v: nat :: v in vals <==> v < |nodes| && Holds(nodes, inputTable, v)
    requires forall v | v in vals :: nodes[v].inputs == []
    requires start == Seeds(vals, indeg)
    ensures TopoSort.Closed(Deps(nodes, nodeTable)) && TopoSort.Distinct(start)
    ensures forall i | 0 <= i < |start| :: start[i] < |nodes| && Deps(nodes, nodeTable)[start[i]] == []
    ensures forall x: nat :: x in start <==> x < |nodes| && Holds(nodes, inputTable, x)
  {
    DepsClosed(nodes, nodeTable);
    var deps := Deps(nodes, nodeTable);
    forall x: nat | x in vals ensures indeg[x] == 0 {
      assert deps[x] == [];
    }
    forall i | 0 <= i < |start| ensures start[i] < |nodes| && deps[start[i]] == [] {
      assert start[i] in start;
    }
  }

  /** The sort's queue: the listed nodes whose in-degree is zero, in order. */
  function Seeds(vals: seq<nat>, indeg: seq<int>): (r: seq<nat>)
    requires TopoSort.Nodes(vals, |indeg|)
    ensures forall x :: x in r <==> x in vals && indeg[x] == 0
    ensures TopoSort.Distinct(vals) ==> TopoSort.Distinct(r)
  {
    if |vals| == 0 then []
    else
      var t := vals[..|vals| - 1];
      var x := vals[|vals| - 1];
      assert vals == t + [x];
      var p := Seeds(t, indeg);
      if indeg[x] == 0 then
        assert TopoSort.Distinct(vals) ==> TopoSort.Distinct(p + [x]) by {
          if TopoSort.Distinct(vals) {
            assert forall a, b | 0 <= a < b < |t| :: t[a] == vals[a] && t[b] == vals[b];
            assert x !in t by {
              forall a | 0 <= a < |t| ensures t[a] != x {
                assert t[a] == vals[a];
              }
            }
            TopoSort.DistinctAppend(p, x);
          }
        }
        p + [x]
      else
        assert TopoSort.Distinct(vals) ==> TopoSort.Distinct(t) by {
          assert forall a, b | 0 <= a < b < |t| :: t[a] == vals[a] && t[b] == vals[b];
        }
        p
  }

  /** Kahn's closure property, read on the arena: a node is emitted exactly
      when `Emits` says so. */
  lemma {:induction false} ReleasedEmits(nodes: seq<SymNode>, inputTable: map<string, nat>, nodeTable: map<string, nat>,
                                         start: seq<nat>, sorted: seq<nat>, v: nat)
    requires Layered(nodes)
    requires TopoSort.Released(Deps(nodes, nodeTable), start, sorted)
    requires forall x: nat :: x in start <==> x < |nodes| && Holds(nodes, inputTable, x)
    requires v < |nodes|
    ensures v in sorted <==> Emits(nodes, inputTable, nodeTable, v)
    decreases v
  {
    var ins := nodes[v].inputs;
    forall k | 0 <= k < |ins| ensures ins[k] in sorted <==> Emits(nodes, inputTable, nodeTable, ins[k]) {
      ReleasedEmits(nodes, inputTable, nodeTable, start, sorted, ins[k]);
    }
    var deps := Deps(nodes, nodeTable);
    assert v in sorted <==> v in start || (deps[v] != [] && TopoSort.Pending(deps[v], TopoSort.Elems(sorted)) == 0);
    if Holds(nodes, nodeTable, v) && ins != [] {
      assert deps[v] == ins;
      if forall k | 0 <= k < |ins| :: Emits(nodes, inputTable, nodeTable, ins[k]) {
        forall x | x in ins ensures x in TopoSort.Elems(sorted) {
          var k :| 0 <= k < |ins| && ins[k] == x;
        }
      } else {
        var k :| 0 <= k < |ins| && !Emits(nodes, inputTable, nodeTable, ins[k]);
        assert ins[k] !in TopoSort.Elems(sorted);
      }
    }
  }

  // -- graphs without a redefined name ----------------------------------------

  /** With no name registered twice, `symbolic_nodes` has one key per node. */
  lemma UniqueCount(nodes: seq<SymNode>, inputKeys: seq<string>, inputTable: map<string, nat>,
                    nodeKeys: seq<string>, nodeTable: map<string, nat>)
    requires Wellformed(nodes, inputKeys, inputTable, nodeKeys, nodeTable) && Unique(nodes, nodeTable)
    ensures |nodeKeys| == |nodes|
  {
    var vs := Values(nodeKeys, nodeTable);
    forall a, b | 0 <= a < b < |vs| ensures vs[a] != vs[b] {
      assert nodes[vs[a]].name == nodeKeys[a] && nodes[vs[b]].name == nodeKeys[b];
    }
    TopoSort.Pigeonhole(vs, |nodes|);
    TopoSort.DistinctSize(vs);
    TopoSort.BelowSize(|nodes|);
    forall v | v in TopoSort.Below(|nodes|) ensures v in TopoSort.Elems(vs) {
      assert Holds(nodes, nodeTable, v);
      assert nodes[v].name in nodeKeys;
      var i :| 0 <= i < |nodeKeys| && nodeKeys[i] == nodes[v].name;
      assert vs[i] == v;
    }
    TopoSort.SubsetSize(TopoSort.Below(|nodes|), TopoSort.Elems(vs));
  }

  /** With no name registered twice and no operation without inputs, every
      node is emitted. */
  lemma {:induction false} AllEmit(nodes: seq<SymNode>, inputKeys: seq<string>, inputTable: map<string, nat>,
                                   nodeKeys: seq<string>, nodeTable: map<string, nat>, v: nat)
    requires Wellformed(nodes, inputKeys, inputTable, nodeKeys, nodeTable) && Unique(nodes, nodeTable)
    requires forall w | 0 <= w < |nodes| && nodes[w].operation.Some? :: nodes[w].inputs != []
    requires v < |nodes|
    ensures Emits(nodes, inputTable, nodeTable, v)
    decreases v
  {
    var ins := nodes[v].inputs;
    forall k | 0 <= k < |ins| ensures Emits(nodes, inputTable, nodeTable, ins[k]) {
      AllEmit(nodes, inputKeys, inputTable, nodeKeys, nodeTable, ins[k]);
    }
    assert Holds(nodes, nodeTable, v);
  }

  /** With no name registered twice, the sort succeeds exactly when no
      operation was given zero inputs, and such an operation is never
      emitted: nodes only ever take earlier nodes as inputs, so the cycle
      the error names cannot be the cause. */
  lemma UniqueEmits(nodes: seq<SymNode>, inputKeys: seq<string>, inputTable: map<string, nat>,
                    nodeKeys: seq<string>, nodeTable: map<string, nat>)
    requires Wellformed(nodes, inputKeys, inputTable, nodeKeys, nodeTable) && Unique(nodes, nodeTable)
    ensures |Emitted(nodes, inputTable, nodeTable)| == |nodeKeys| <==>
            forall v | 0 <= v < |nodes| && nodes[v].operation.Some? :: nodes[v].inputs != []
    ensures forall v | 0 <= v < |nodes| && nodes[v].operation.Some? && nodes[v].inputs == [] ::
              !Emits(nodes, inputTable, nodeTable, v)
  {
    UniqueCount(nodes, inputKeys, inputTable, nodeKeys, nodeTable);
    var n := |nodes|;
    var e := Emitted(nodes, inputTable, nodeTable);
    TopoSort.BelowSize(n);
    TopoSort.SubsetSize(e, TopoSort.Below(n));
    forall v | 0 <= v < n && nodes[v].operation.Some? && nodes[v].inputs == []
      ensures !Emits(nodes, inputTable, nodeTable, v)
    {
      ZeroInputs(nodes, inputKeys, inputTable, nodeKeys, nodeTable, v);
    }
    ghost var complete := forall v | 0 <= v < n && nodes[v].operation.Some? :: nodes[v].inputs != [];
    if complete {
      EmittedAll(nodes, inputKeys, inputTable, nodeKeys, nodeTable);
      assert |e| == n;
    } else {
      var v :| 0 <= v < n && nodes[v].operation.Some? && nodes[v].inputs == [];
      assert v in TopoSort.Below(n) && v !in e;
      assert |e| != n;
    }
  }

  lemma EmittedAll(nodes: seq<SymNode>, inputKeys: seq<string>, inputTable: map<string, nat>,
                   nodeKeys: seq<string>, nodeTable: map<string, nat>)
    requires Wellformed(nodes, inputKeys, inputTable, nodeKeys, nodeTable) && Unique(nodes, nodeTable)
    requires forall w | 0 <= w < |nodes| && nodes[w].operation.Some? :: nodes[w].inputs != []
    ensures Emitted(nodes, inputTable, nodeTable) == TopoSort.Below(|nodes|)
  {
    forall v | v in TopoSort.Below(|nodes|) ensures v in Emitted(nodes, inputTable, nodeTable) {
      AllEmit(nodes, inputKeys, inputTable, nodeKeys, nodeTable, v);
    }
  }

  /** An operation without inputs is never emitted: it is not an input and
      releasing it needs an input. */
  lemma ZeroInputs(nodes: seq<SymNode>, inputKeys: seq<string>, inputTable: map<string, nat>,
                   nodeKeys: seq<string>, nodeTable: map<string, nat>, v: nat)
    requires Wellformed(nodes, inputKeys, inputTable, nodeKeys, nodeTable)
    requires v < |nodes| && nodes[v].operation.Some? && nodes[v].inputs == []
    ensures !Emits(nodes, inputTable, nodeTable, v)
  {
    var k := nodes[v].name;
    if k in inputTable {
      assert nodes[inputTable[k]].operation.None?;
    }
  }

  /** An arena where every input is fed gives every node a value. */
  lemma {:induction false} AllValued(nodes: seq<SymNode>, fed: map<nat, real>, v: nat)
    requires Layered(nodes)
    requires forall w | 0 <= w < |nodes| && nodes[w].operation.None? :: w in fed
    requires v < |nodes|
    ensures Value(nodes, fed, v).Some?
    decreases v
  {
    var ins := nodes[v].inputs;
    forall k | 0 <= k < |ins| ensures Value(nodes, fed, ins[k]).Some? {
      AllValued(nodes, fed, ins[k]);
    }
  }

  /** A graph with no name registered twice and no operation without
      inputs, fed a value for every input and for nothing else, executes:
      the sort succeeds, every operation is computed, and each name maps to
      its node's value. */
  lemma CleanRun(nodes: seq<SymNode>, inputKeys: seq<string>, inputTable: map<string, nat>,
                 nodeKeys: seq<string>, nodeTable: map<string, nat>, feed: seq<(string, real)>)
    requires Wellformed(nodes, inputKeys, inputTable, nodeKeys, nodeTable) && Unique(nodes, nodeTable)
    requires forall v | 0 <= v < |nodes| && nodes[v].operation.Some? :: nodes[v].inputs != []
    requires forall i | 0 <= i < |feed| :: feed[i].0 in inputTable
    requires forall k | k in inputTable :: k in FeedNames(feed)
    ensures |Emitted(nodes, inputTable, nodeTable)| == |nodeKeys|
    ensures LookupAll(inputTable, FeedNames(feed)).Success?
    ensures Computable(nodes, inputTable, nodeTable, FedMap(inputTable, feed))
    ensures forall k | k in nodeTable ::
              Reported(nodes, inputTable, nodeTable, FedMap(inputTable, feed), nodeTable[k]) ==
              Value(nodes, FedMap(inputTable, feed), nodeTable[k]) &&
              Value(nodes, FedMap(inputTable, feed), nodeTable[k]).Some?
  {
    UniqueEmits(nodes, inputKeys, inputTable, nodeKeys, nodeTable);
    var fed := FedMap(inputTable, feed);
    forall w | 0 <= w < |nodes| && nodes[w].operation.None? ensures w in fed {
      var k := nodes[w].name;
      assert Holds(nodes, nodeTable, w);
      var i :| 0 <= i < |feed| && FeedNames(feed)[i] == k;
      assert feed[i].0 == k;
    }
    forall v | 0 <= v < |nodes| ensures Value(nodes, fed, v).Some? && Emits(nodes, inputTable, nodeTable, v) {
      AllValued(nodes, fed, v);
      AllEmit(nodes, inputKeys, inputTable, nodeKeys, nodeTable, v);
    }
  }

  // -- the example ---------------------------------------------------------------

  /** `usd_price_raw(spot, fx)`. */
  function UsdPrice(a: seq<real>): real
  {
    if |a| == 2 then a[0] * a[1] else 0.0
  }

  /** The module's example: inputs spot and fx, `usd_price_raw` over them;
      fed 100.0 and 0.95 it gives 95.0, fed 100.0 and 1.0 it gives 100.0. */
  method Example() returns (first: Result<map<string, Option<real>>, Error>,
                            second: Result<map<string, Option<real>>, Error>)
    ensures first == Success(map["spot" := Some(100.0), "fx" := Some(0.95), "usd_price_raw" := Some(95.0)])
    ensures second == Success(map["spot" := Some(100.0), "fx" := Some(1.0), "usd_price_raw" := Some(100.0)])
  {
    var g := new RawGraph();
    var spot := g.Input("spot");
    var fx := g.Input("fx");
    assert g.nodes == [SymNode("spot", None, []), SymNode("fx", None, [])];
    ExampleLookup(g.nodeTable);
    var usd := g.Fn("usd_price_raw", UsdPrice, ["spot", "fx"]);
    assert g.nodes == [SymNode("spot", None, []), SymNode("fx", None, []), SymNode("usd_price_raw", Some(UsdPrice), [0, 1])];
    assert g.nodeTable == map["spot" := 0, "fx" := 1, "usd_price_raw" := 2];
    assert g.inputTable == map["spot" := 0, "fx" := 1];
    first := ExampleRun(g, 0.95);
    second := ExampleRun(g, 1.0);
  }

  lemma ExampleLookup(nodeTable: map<string, nat>)
    requires nodeTable == map["spot" := 0, "fx" := 1]
    ensures LookupAll(nodeTable, ["spot", "fx"]) == Success([0, 1])
  {
    ghost var found := LookupAll(nodeTable, ["spot", "fx"]);
    assert ["spot", "fx"][0] == "spot" && ["spot", "fx"][1] == "fx";
    assert found.Success? && found.value[0] == 0 && found.value[1] == 1;
    assert found.value == [0, 1];
  }

  /** One `execute` of the example graph with spot at 100.0. */
  method ExampleRun(g: RawGraph, rate: real) returns (r: Result<map<string, Option<real>>, Error>)
    requires g.Valid()
    requires g.nodes == [SymNode("spot", None, []), SymNode("fx", None, []), SymNode("usd_price_raw", Some(UsdPrice), [0, 1])]
    requires g.nodeTable == map["spot" := 0, "fx" := 1, "usd_price_raw" := 2]
    requires g.inputTable == map["spot" := 0, "fx" := 1]
    ensures r == Success(map["spot" := Some(100.0), "fx" := Some(rate), "usd_price_raw" := Some(100.0 * rate)])
  {
    var feed := [("spot", 100.0), ("fx", rate)];
    assert FeedNames(feed) == ["spot", "fx"];
    assert forall w | 0 <= w < 3 :: Holds(g.nodes, g.nodeTable, w);
    CleanRun(g.nodes, g.inputKeys, g.inputTable, g.nodeKeys, g.nodeTable, feed);
    r := g.Execute(feed);
    ExampleFed(g.inputTable, feed, rate);
    ExampleOutcome(g.nodes, g.inputTable, g.nodeTable, FedMap(g.inputTable, feed), r.value, rate);
  }

  /** The example's values: spot, fx and their product. */
  lemma ExampleValues(ns: seq<SymNode>, fed: map<nat, real>, rate: real)
    requires ns == [SymNode("spot", None, []), SymNode("fx", None, []), SymNode("usd_price_raw", Some(UsdPrice), [0, 1])]
    requires fed == map[0 := 100.0, 1 := rate]
    ensures Layered(ns)
    ensures Value(ns, fed, 0) == Some(100.0) && Value(ns, fed, 1) == Some(rate)
    ensures Value(ns, fed, 2) == Some(100.0 * rate)
  {
    assert Value(ns, fed, 0) == Some(100.0) && Value(ns, fed, 1) == Some(rate);
    var ins := ns[2].inputs;
    assert ins[0] == 0 && ins[1] == 1;
    var args := Args(ns, fed, 2, 2);
    assert args.Some? && args.value[0] == 100.0 && args.value[1] == rate;
    assert args.value == [100.0, rate];
    assert UsdPrice([100.0, rate]) == 100.0 * rate;
  }

  lemma ExampleFed(inputTable: map<string, nat>, feed: seq<(string, real)>, rate: real)
    requires inputTable == map["spot" := 0, "fx" := 1] && feed == [("spot", 100.0), ("fx", rate)]
    ensures FedMap(inputTable, feed) == map[0 := 100.0, 1 := rate]
  {
    assert feed[..1] == [("spot", 100.0)] && feed[..1][..0] == [];
  }

  /** The dict `execute` returns for the example graph. */
  lemma ExampleOutcome(ns: seq<SymNode>, inputTable: map<string, nat>, nodeTable: map<string, nat>,
                       fed: map<nat, real>, m: map<string, Option<real>>, rate: real)
    requires ns == [SymNode("spot", None, []), SymNode("fx", None, []), SymNode("usd_price_raw", Some(UsdPrice), [0, 1])]
    requires inputTable == map["spot" := 0, "fx" := 1]
    requires nodeTable == map["spot" := 0, "fx" := 1, "usd_price_raw" := 2]
    requires fed == map[0 := 100.0, 1 := rate]
    requires m.Keys == nodeTable.Keys
    requires forall k | k in nodeTable :: nodeTable[k] < |ns| && m[k] == Value(ns, fed, nodeTable[k])
    ensures m == map["spot" := Some(100.0), "fx" := Some(rate), "usd_price_raw" := Some(100.0 * rate)]
  {
    ExampleValues(ns, fed, rate);
    assert m["spot"] == Some(100.0) && m["fx"] == Some(rate) && m["usd_price_raw"] == Some(100.0 * rate);
  }

  function Doubled(a: seq<real>): real
  {
    if |a| == 1 then 2.0 * a[0] else 0.0
  }

  /** A name registered first as an input and then as an operation without
      inputs: the sort counts the stale input in place of the operation, so
      it does not fail, and the operation is never run. */
  method RedefinedInput() returns (r: Result<map<string, Option<real>>, Error>)
    ensures r == Success(map["x" := None])
  {
    var g := new RawGraph();
    var a := g.Input("x");
    var b := g.Fn("x", Doubled, []);
    assert g.nodes == [SymNode("x", None, []), SymNode("x", Some(Doubled), [])];
    var feed := [("x", 1.0)];
    RedefinedFacts(g.nodes, g.inputTable, g.nodeKeys, g.nodeTable, feed);
    r := g.Execute(feed);
    RedefinedOutcome(g.nodes, g.inputTable, g.nodeTable, FedMap(g.inputTable, feed), r.value);
  }

  /** The redefined graph: only the stale input is emitted, the feed is
      accepted, and the operation is reported as None. */
  lemma RedefinedFacts(nodes: seq<SymNode>, inputTable: map<string, nat>, nodeKeys: seq<string>,
                       nodeTable: map<string, nat>, feed: seq<(string, real)>)
    requires nodes == [SymNode("x", None, []), SymNode("x", Some(Doubled), [])]
    requires inputTable == map["x" := 0] && nodeKeys == ["x"] && nodeTable == map["x" := 1]
    requires feed == [("x", 1.0)]
    ensures Layered(nodes)
    ensures |Emitted(nodes, inputTable, nodeTable)| == |nodeKeys|
    ensures LookupAll(inputTable, FeedNames(feed)).Success?
    ensures Computable(nodes, inputTable, nodeTable, FedMap(inputTable, feed))
    ensures Reported(nodes, inputTable, nodeTable, FedMap(inputTable, feed), 1) == None
  {
    assert Emits(nodes, inputTable, nodeTable, 0) && !Emits(nodes, inputTable, nodeTable, 1);
    assert Emitted(nodes, inputTable, nodeTable) == {0};
    assert FeedNames(feed)[0] == "x";
  }

  lemma RedefinedOutcome(nodes: seq<SymNode>, inputTable: map<string, nat>, nodeTable: map<string, nat>,
                         fed: map<nat, real>, m: map<string, Option<real>>)
    requires Layered(nodes) && nodeTable == map["x" := 1] && |nodes| == 2
    requires Reported(nodes, inputTable, nodeTable, fed, 1) == None
    requires m.Keys == nodeTable.Keys
    requires forall k | k in nodeTable :: m[k] == Reported(nodes, inputTable, nodeTable, fed, nodeTable[k])
    ensures m == map["x" := None]
  {
    assert m["x"] == None;
  }
}
