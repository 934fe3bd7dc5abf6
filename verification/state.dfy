/** The registry that owns the whole build graph: rules, pools, the
    path-keyed node table, the edge list and the default targets.

    Nodes and edges live in arenas (`nodes`, `edges`) and refer to each other
    by index. `Valid` is the registry's class invariant: the path table and
    the node arena are in one-to-one correspondence, every stored index
    points into its arena, and the two sides of every link agree. The
    constructor establishes it and every operation keeps it. */
module Registry {
  import opened Wrappers
  import opened Graph
  import opened Pools

  /** The no-op rule every registry starts with. */
  const PhonyRule := Rule("phony")

  /** The unconstrained pool every registry starts with. */
  const DefaultPool := NewPool("", 0)

  /** Spellchecking suggests only paths within this edit distance. */
  const MaxValidEditDistance := 3

  datatype State = State(
    rules: map<string, Rule>,
    pools: map<string, Pool>,
    paths: map<string, NodeId>,
    nodes: seq<Node>,
    edges: seq<Edge>,
    defaults: seq<NodeId>)

  predicate NodeRefsOk(n: Node, edgeCount: nat) {
    && (n.inEdge.Some? ==> n.inEdge.value < edgeCount)
    && (forall k :: 0 <= k < |n.outEdges| ==> n.outEdges[k] < edgeCount)
  }

  predicate EdgeRefsOk(e: Edge, nodeCount: nat) {
    && (forall k :: 0 <= k < |e.inputs| ==> e.inputs[k] < nodeCount)
    && (forall k :: 0 <= k < |e.outputs| ==> e.outputs[k] < nodeCount)
  }

  /** Referential integrity of the registry: every rule and pool is filed
      under its own name, and every stored index points into its arena. */
  predicate Indexed(st: State) {
    && (forall k :: k in st.rules ==> st.rules[k].name == k)
    && (forall k :: k in st.pools ==> st.pools[k].name == k)
    && (forall p :: p in st.paths ==> st.paths[p] < |st.nodes| && st.nodes[st.paths[p]].path == p)
    && (forall i :: 0 <= i < |st.nodes| ==> st.nodes[i].path in st.paths && st.paths[st.nodes[i].path] == i)
    && (forall i :: 0 <= i < |st.nodes| ==> NodeRefsOk(st.nodes[i], |st.edges|))
    && (forall i :: 0 <= i < |st.edges| ==> EdgeRefsOk(st.edges[i], |st.nodes|))
    && (forall k :: 0 <= k < |st.defaults| ==> st.defaults[k] < |st.nodes|)
  }

  /** The two sides of every link agree: an edge lists a node among its
      inputs exactly when the node lists the edge among its consumers, and a
      node's producer lists the node among its outputs. */
  predicate Wired(st: State) {
    && (forall n, e :: 0 <= n < |st.nodes| && 0 <= e < |st.edges| ==>
          (e in st.nodes[n].outEdges <==> n in st.edges[e].inputs))
    && (forall n :: 0 <= n < |st.nodes| && st.nodes[n].inEdge.Some? ==>
          st.nodes[n].inEdge.value < |st.edges| && n in st.edges[st.nodes[n].inEdge.value].outputs)
  }

  /** The registry's class invariant. */
  predicate Valid(st: State) {
    Indexed(st) && Wired(st)
  }

  // ---------------------------------------------------------------- rules

  function LookupRule(st: State, name: string): (r: Option<Rule>)
    ensures r.Some? <==> name in st.rules
    ensures r.Some? ==> r.value == st.rules[name]
  {
    if name in st.rules then Some(st.rules[name]) else None
  }

  /** Registers a rule whose name is not yet taken. */
  function AddRule(st: State, rule: Rule): (r: State)
    requires LookupRule(st, rule.name) == None
    ensures LookupRule(r, rule.name) == Some(rule)
    ensures forall n :: n != rule.name ==> LookupRule(r, n) == LookupRule(st, n)
    ensures r.pools == st.pools && r.paths == st.paths && r.nodes == st.nodes
    ensures r.edges == st.edges && r.defaults == st.defaults
    ensures Valid(st) ==> Valid(r)
  {
    st.(rules := st.rules[rule.name := rule])
  }

  // ---------------------------------------------------------------- pools

  function LookupPool(st: State, name: string): (r: Option<Pool>)
    ensures r.Some? <==> name in st.pools
    ensures r.Some? ==> r.value == st.pools[name]
  {
    if name in st.pools then Some(st.pools[name]) else None
  }

  /** Registers a pool whose name is not yet taken. */
  function AddPool(st: State, pool: Pool): (r: State)
    requires LookupPool(st, pool.name) == None
    ensures LookupPool(r, pool.name) == Some(pool)
    ensures forall n :: n != pool.name ==> LookupPool(r, n) == LookupPool(st, n)
    ensures r.rules == st.rules && r.paths == st.paths && r.nodes == st.nodes
    ensures r.edges == st.edges && r.defaults == st.defaults
    ensures Valid(st) ==> Valid(r)
  {
    st.(pools := st.pools[pool.name := pool])
  }

  /** Writes back a registered pool after admission control changed it.
      The pool table holds shared pool objects that the operations of
      `Pools` change in place; here those operations return a new value,
      and this stores it under the pool's name. */
  function UpdatePool(st: State, pool: Pool): (r: State)
    requires LookupPool(st, pool.name).Some?
    requires pool.depth == LookupPool(st, pool.name).value.depth
    ensures LookupPool(r, pool.name) == Some(pool)
    ensures forall n :: n != pool.name ==> LookupPool(r, n) == LookupPool(st, n)
    ensures r.pools.Keys == st.pools.Keys
    ensures r.rules == st.rules && r.paths == st.paths && r.nodes == st.nodes
    ensures r.edges == st.edges && r.defaults == st.defaults
    ensures Valid(st) ==> Valid(r)
  {
    st.(pools := st.pools[pool.name := pool])
  }

  /** Scheduling an edge into a registered pool and writing the pool back
      makes the registry report the new usage, and finishing the edge
      restores what it reported before. */
  lemma UpdatedUsageIsSeen(st: State, name: string, w: Weights, e: EdgeId)
    requires Valid(st) && LookupPool(st, name).Some?
    ensures var p := LookupPool(st, name).value;
      var st1 := UpdatePool(st, EdgeScheduled(p, w, e));
      var p1 := LookupPool(st1, name).value;
      && p1.currentUse == p.currentUse + Charge(p.depth, w, [e])
      && LookupPool(UpdatePool(st1, EdgeFinished(p1, w, e)), name) == LookupPool(st, name)
  {
    var p := LookupPool(st, name).value;
    FinishedUndoesScheduled(p, w, e);
  }

  // ---------------------------------------------------------------- construction

  /** A new registry: only the phony rule and the default pool exist. */
  function NewState(): (st: State)
    ensures Valid(st)
    ensures LookupRule(st, "phony") == Some(PhonyRule)
    ensures forall n :: n != "phony" ==> LookupRule(st, n) == None
    ensures LookupPool(st, "") == Some(DefaultPool) && DefaultPool.depth == 0
    ensures forall n :: n != "" ==> LookupPool(st, n) == None
    ensures st.paths == map[] && st.nodes == [] && st.edges == [] && st.defaults == []
  {
    var empty := State(map[], map[], map[], [], [], []);
    AddPool(AddRule(empty, PhonyRule), DefaultPool)
  }

  // ---------------------------------------------------------------- edges

  /** Allocates a new edge for `rule` in `pool`, appended to the edge list. */
  function AddEdge(st: State, rule: string, pool: string, weight: int): (r: (State, EdgeId))
    ensures r.1 == |st.edges| && |r.0.edges| == |st.edges| + 1
    ensures r.0.edges[..|st.edges|] == st.edges
    ensures var e := r.0.edges[r.1];
      e.rule == rule && e.pool == pool && e.weight == weight
      && e.inputs == [] && e.outputs == [] && !e.outputsReady
    ensures r.0.rules == st.rules && r.0.pools == st.pools && r.0.paths == st.paths
    ensures r.0.nodes == st.nodes && r.0.defaults == st.defaults
    ensures Valid(st) ==> Valid(r.0)
  {
    var st' := st.(edges := st.edges + [NewEdge(rule, pool, weight)]);
    assert st'.edges[..|st.edges|] == st.edges;
    (st', |st.edges|)
  }

  /** The weights the registry hands to pools and the scheduler: each
      registered edge's own weight. */
  function WeightsOf(st: State): (w: Weights)
    ensures forall e :: 0 <= e < |st.edges| ==> w(e) == st.edges[e].weight
  {
    (e: EdgeId) => if e < |st.edges| then st.edges[e].weight else 0
  }

  /** The weight given to `AddEdge` is the one dispatch and admission see
      for the new edge, and earlier edges keep theirs: a constrained pool
      is charged exactly that weight when the edge starts. */
  lemma AddEdgeSetsDispatchWeight(st: State, rule: string, pool: string, weight: int, p: Pool)
    ensures var (st1, e) := AddEdge(st, rule, pool, weight);
      && WeightsOf(st1)(e) == weight
      && (forall i :: 0 <= i < |st.edges| ==> WeightsOf(st1)(i) == WeightsOf(st)(i))
      && EdgeScheduled(p, WeightsOf(st1), e).currentUse == p.currentUse + (if p.depth != 0 then weight else 0)
  {
    var (st1, e) := AddEdge(st, rule, pool, weight);
    assert Sum(WeightsOf(st1), [e]) == weight by { assert [e][1..] == []; }
  }

  // ---------------------------------------------------------------- nodes

  /** Pure lookup of the node registered under `path`. */
  function LookupNode(st: State, path: string): (r: Option<NodeId>)
    ensures r.None? <==> path !in st.paths
    ensures r.Some? ==> r.value == st.paths[path]
    ensures r.Some? && Valid(st) ==> r.value < |st.nodes| && st.nodes[r.value].path == path
  {
    if path in st.paths then Some(st.paths[path]) else None
  }

  /** Registering a fresh node, linked to no edge, under an unregistered
      path keeps the registry valid. */
  lemma RegisterNodeKeepsValid(st: State, path: string)
    requires Valid(st) && path !in st.paths
    ensures Valid(st.(paths := st.paths[path := |st.nodes|], nodes := st.nodes + [NewNode(path)]))
  {
    var n := |st.nodes|;
    var r := st.(paths := st.paths[path := n], nodes := st.nodes + [NewNode(path)]);
    assert forall i :: 0 <= i < n ==> r.nodes[i] == st.nodes[i];
    assert Indexed(r) by {
      forall i | 0 <= i < |r.nodes|
        ensures NodeRefsOk(r.nodes[i], |r.edges|)
      {
        if i < n { assert r.nodes[i] == st.nodes[i]; }
      }
      forall i | 0 <= i < |r.edges|
        ensures EdgeRefsOk(r.edges[i], |r.nodes|)
      {
        assert EdgeRefsOk(st.edges[i], |st.nodes|);
      }
    }
    forall m, f | 0 <= m < |r.nodes| && 0 <= f < |r.edges|
      ensures f in r.nodes[m].outEdges <==> m in r.edges[f].inputs
    {
      if m < n {
        assert f in st.nodes[m].outEdges <==> m in st.edges[f].inputs;
      } else {
        assert EdgeRefsOk(st.edges[f], n);
      }
    }
  }

  /** The node for `path`, created and registered if there is none yet.
      This is the only way nodes come into existence. */
  function GetNode(st: State, path: string): (r: (State, NodeId))
    requires Valid(st)
    ensures Valid(r.0)
    ensures LookupNode(r.0, path) == Some(r.1)
    ensures path in st.paths ==> r == (st, st.paths[path])
    ensures path !in st.paths ==>
      r.1 == |st.nodes| && r.0.nodes == st.nodes + [NewNode(path)]
    ensures r.0.paths.Keys == st.paths.Keys + {path}
    ensures forall p :: p in st.paths ==> r.0.paths[p] == st.paths[p]
    ensures |st.nodes| <= |r.0.nodes| <= |st.nodes| + 1
    ensures r.0.nodes[..|st.nodes|] == st.nodes
    ensures r.0.rules == st.rules && r.0.pools == st.pools
    ensures r.0.edges == st.edges && r.0.defaults == st.defaults
  {
    match LookupNode(st, path)
    case Some(n) => (st, n)
    case None =>
      var n := |st.nodes|;
      var st' := st.(paths := st.paths[path := n], nodes := st.nodes + [NewNode(path)]);
      assert st'.nodes[..n] == st.nodes;
      assert forall i :: 0 <= i < n ==> st'.nodes[i] == st.nodes[i];
      RegisterNodeKeepsValid(st, path);
      (st', n)
  }

  /** A second `GetNode` for the same path returns the same node and
      changes nothing. */
  lemma GetNodeIsIdempotent(st: State, path: string)
    requires Valid(st)
    ensures GetNode(GetNode(st, path).0, path) == GetNode(st, path)
  {
  }

  // ---------------------------------------------------------------- wiring

  /** Replacing one edge and one node by versions that point only into the
      arenas, with the node keeping its path, keeps every index in range. */
  lemma RewireKeepsIndexed(st: State, e: EdgeId, edge: Edge, n: NodeId, node: Node)
    requires Indexed(st) && e < |st.edges| && n < |st.nodes|
    requires node.path == st.nodes[n].path
    requires NodeRefsOk(node, |st.edges|) && EdgeRefsOk(edge, |st.nodes|)
    ensures Indexed(st.(edges := st.edges[e := edge], nodes := st.nodes[n := node]))
  {
    var r := st.(edges := st.edges[e := edge], nodes := st.nodes[n := node]);
    forall i | 0 <= i < |r.nodes|
      ensures NodeRefsOk(r.nodes[i], |r.edges|)
    {
      if i != n { assert NodeRefsOk(st.nodes[i], |st.edges|); }
    }
    forall i | 0 <= i < |r.edges|
      ensures EdgeRefsOk(r.edges[i], |r.nodes|)
    {
      if i != e { assert EdgeRefsOk(st.edges[i], |st.nodes|); }
    }
  }

  /** Linking node `n` as an input of edge `e` on both sides keeps the two
      sides of every link in agreement. */
  lemma {:induction false} LinkInputKeepsWired(st: State, e: EdgeId, n: NodeId)
    requires Wired(st) && e < |st.edges| && n < |st.nodes|
    ensures Wired(st.(edges := st.edges[e := st.edges[e].(inputs := st.edges[e].inputs + [n])],
                      nodes := st.nodes[n := st.nodes[n].(outEdges := st.nodes[n].outEdges + [e])]))
  {
    var r := st.(edges := st.edges[e := st.edges[e].(inputs := st.edges[e].inputs + [n])],
                 nodes := st.nodes[n := st.nodes[n].(outEdges := st.nodes[n].outEdges + [e])]);
    forall m, f | 0 <= m < |r.nodes| && 0 <= f < |r.edges|
      ensures f in r.nodes[m].outEdges <==> m in r.edges[f].inputs
    {
      assert f in st.nodes[m].outEdges <==> m in st.edges[f].inputs;
    }
    forall m | 0 <= m < |r.nodes| && r.nodes[m].inEdge.Some?
      ensures r.nodes[m].inEdge.value < |r.edges| && m in r.edges[r.nodes[m].inEdge.value].outputs
    {
      assert r.nodes[m].inEdge == st.nodes[m].inEdge;
    }
  }

  /** Making edge `e` the producer of node `n` and listing `n` among its
      outputs keeps the two sides of every link in agreement, whatever
      producer `n` had before. */
  lemma {:induction false} LinkOutputKeepsWired(st: State, e: EdgeId, n: NodeId)
    requires Wired(st) && e < |st.edges| && n < |st.nodes|
    ensures Wired(st.(edges := st.edges[e := st.edges[e].(outputs := st.edges[e].outputs + [n])],
                      nodes := st.nodes[n := st.nodes[n].(inEdge := Some(e))]))
  {
    var r := st.(edges := st.edges[e := st.edges[e].(outputs := st.edges[e].outputs + [n])],
                 nodes := st.nodes[n := st.nodes[n].(inEdge := Some(e))]);
    forall m, f | 0 <= m < |r.nodes| && 0 <= f < |r.edges|
      ensures f in r.nodes[m].outEdges <==> m in r.edges[f].inputs
    {
      assert f in st.nodes[m].outEdges <==> m in st.edges[f].inputs;
    }
    forall m | 0 <= m < |r.nodes| && r.nodes[m].inEdge.Some?
      ensures r.nodes[m].inEdge.value < |r.edges| && m in r.edges[r.nodes[m].inEdge.value].outputs
    {
      if m != n {
        var f := st.nodes[m].inEdge.value;
        assert m in st.edges[f].outputs;
      }
    }
  }

  /** Linking node `n` as an input of edge `e` keeps the registry valid. */
  lemma LinkInputKeepsValid(st: State, e: EdgeId, n: NodeId)
    requires Valid(st) && e < |st.edges| && n < |st.nodes|
    ensures Valid(st.(edges := st.edges[e := st.edges[e].(inputs := st.edges[e].inputs + [n])],
                      nodes := st.nodes[n := st.nodes[n].(outEdges := st.nodes[n].outEdges + [e])]))
  {
    var edge := st.edges[e].(inputs := st.edges[e].inputs + [n]);
    var node := st.nodes[n].(outEdges := st.nodes[n].outEdges + [e]);
    assert EdgeRefsOk(st.edges[e], |st.nodes|);
    assert NodeRefsOk(st.nodes[n], |st.edges|);
    RewireKeepsIndexed(st, e, edge, n, node);
    LinkInputKeepsWired(st, e, n);
  }

  /** Linking node `n` as an output of edge `e` keeps the registry valid. */
  lemma LinkOutputKeepsValid(st: State, e: EdgeId, n: NodeId)
    requires Valid(st) && e < |st.edges| && n < |st.nodes|
    ensures Valid(st.(edges := st.edges[e := st.edges[e].(outputs := st.edges[e].outputs + [n])],
                      nodes := st.nodes[n := st.nodes[n].(inEdge := Some(e))]))
  {
    var edge := st.edges[e].(outputs := st.edges[e].outputs + [n]);
    assert EdgeRefsOk(st.edges[e], |st.nodes|);
    assert NodeRefsOk(st.nodes[n], |st.edges|);
    RewireKeepsIndexed(st, e, edge, n, st.nodes[n].(inEdge := Some(e)));
    LinkOutputKeepsWired(st, e, n);
  }

  /** Records `path` as an input of edge `e`: the node joins the edge's
      inputs and the edge joins the node's out-edges. */
  function AddIn(st: State, e: EdgeId, path: string): (r: State)
    requires Valid(st) && e < |st.edges|
    ensures Valid(r)
    ensures var (st1, n) := GetNode(st, path);
      && r.paths == st1.paths && |r.nodes| == |st1.nodes| && |r.edges| == |st.edges|
      && r.edges[e].inputs == st.edges[e].inputs + [n]
      && r.edges[e] == st.edges[e].(inputs := r.edges[e].inputs)
      && r.nodes[n].outEdges == st1.nodes[n].outEdges + [e]
      && r.nodes[n] == st1.nodes[n].(outEdges := r.nodes[n].outEdges)
      && (forall i :: 0 <= i < |st.edges| && i != e ==> r.edges[i] == st.edges[i])
      && (forall m :: 0 <= m < |st1.nodes| && m != n ==> r.nodes[m] == st1.nodes[m])
    ensures r.rules == st.rules && r.pools == st.pools && r.defaults == st.defaults
  {
    var (st1, n) := GetNode(st, path);
    var edge := st1.edges[e].(inputs := st1.edges[e].inputs + [n]);
    var node := st1.nodes[n].(outEdges := st1.nodes[n].outEdges + [e]);
    var r := st1.(edges := st1.edges[e := edge], nodes := st1.nodes[n := node]);
    LinkInputKeepsValid(st1, e, n);
    r
  }

  /** Records `path` as an output of edge `e`: the node joins the edge's
      outputs and `e` becomes its producer, replacing any earlier one. The
      boolean reports the conflict warning: another edge already produced
      this node. */
  function AddOut(st: State, e: EdgeId, path: string): (r: (State, bool))
    requires Valid(st) && e < |st.edges|
    ensures Valid(r.0)
    ensures r.1 <==> path in st.paths && st.nodes[st.paths[path]].inEdge.Some?
    ensures var (st1, n) := GetNode(st, path);
      && r.0.paths == st1.paths && |r.0.nodes| == |st1.nodes| && |r.0.edges| == |st.edges|
      && r.0.edges[e].outputs == st.edges[e].outputs + [n]
      && r.0.edges[e] == st.edges[e].(outputs := r.0.edges[e].outputs)
      && r.0.nodes[n].inEdge == Some(e)
      && r.0.nodes[n] == st1.nodes[n].(inEdge := Some(e))
      && (forall i :: 0 <= i < |st.edges| && i != e ==> r.0.edges[i] == st.edges[i])
      && (forall m :: 0 <= m < |st1.nodes| && m != n ==> r.0.nodes[m] == st1.nodes[m])
    ensures r.0.rules == st.rules && r.0.pools == st.pools && r.0.defaults == st.defaults
  {
    var (st1, n) := GetNode(st, path);
    var edge := st1.edges[e].(outputs := st1.edges[e].outputs + [n]);
    var warn := st1.nodes[n].inEdge.Some?;
    var node := st1.nodes[n].(inEdge := Some(e));
    var r := st1.(edges := st1.edges[e := edge], nodes := st1.nodes[n := node]);
    LinkOutputKeepsValid(st1, e, n);
    (r, warn)
  }

  /** Two edges declaring the same output: the second one warns and ends up
      as the node's producer. */
  lemma SecondProducerWinsWithWarning(st: State, e1: EdgeId, e2: EdgeId, path: string)
    requires Valid(st) && e1 < |st.edges| && e2 < |st.edges|
    ensures var st1 := AddOut(st, e1, path).0;
      var (st2, warned) := AddOut(st1, e2, path);
      && warned
      && st2.nodes[st2.paths[path]].inEdge == Some(e2)
  {
    var st1 := AddOut(st, e1, path).0;
    assert path in st1.paths;
    assert st1.nodes[st1.paths[path]].inEdge == Some(e1);
  }

  // ---------------------------------------------------------------- defaults

  /** Adds the node registered under `path` to the default targets. An
      unregistered path is an error and leaves the registry as it was. */
  function AddDefault(st: State, path: string): (r: (State, Outcome<string>))
    ensures r.1.Fail? <==> path !in st.paths
    ensures r.1.Fail? ==> r.0 == st && r.1.error == "unknown target '" + path + "'"
    ensures r.1.Pass? ==> r.0.defaults == st.defaults + [st.paths[path]]
    ensures r.0.rules == st.rules && r.0.pools == st.pools && r.0.paths == st.paths
    ensures r.0.nodes == st.nodes && r.0.edges == st.edges
    ensures Valid(st) ==> Valid(r.0)
  {
    match LookupNode(st, path)
    case None => (st, Fail("unknown target '" + path + "'"))
    case Some(n) => (st.(defaults := st.defaults + [n]), Pass)
  }

  // ---------------------------------------------------------------- root nodes

  /** A node no edge consumes. */
  predicate IsRoot(nodes: seq<Node>, n: NodeId) {
    n < |nodes| && nodes[n].outEdges == []
  }

  /** The outputs of `edges`, edge by edge and each edge's in order. */
  function OutputsOf(edges: seq<Edge>): seq<NodeId> {
    if edges == [] then [] else OutputsOf(edges[..|edges| - 1]) + edges[|edges| - 1].outputs
  }

  /** The members of `outs` that are roots, in their order. */
  function RootsAmong(nodes: seq<Node>, outs: seq<NodeId>): seq<NodeId> {
    if outs == [] then []
    else
      var init := RootsAmong(nodes, outs[..|outs| - 1]);
      if IsRoot(nodes, outs[|outs| - 1]) then init + [outs[|outs| - 1]] else init
  }

  /** `RootsAmong` keeps exactly the roots of its input. */
  lemma {:induction false} RootsAmongFilters(nodes: seq<Node>, outs: seq<NodeId>)
    ensures forall n :: n in RootsAmong(nodes, outs) <==> n in outs && IsRoot(nodes, n)
  {
    if outs != [] {
      var init := outs[..|outs| - 1];
      RootsAmongFilters(nodes, init);
      assert outs == init + [outs[|outs| - 1]];
    }
  }

  /** A node is among the outputs of `edges` exactly when some edge lists
      it as an output. */
  lemma {:induction false} OutputsOfHoldsEachOutput(edges: seq<Edge>, n: NodeId)
    ensures n in OutputsOf(edges) <==>
      exists i, j :: 0 <= i < |edges| && 0 <= j < |edges[i].outputs| && edges[i].outputs[j] == n
  {
    if edges != [] {
      var init := edges[..|edges| - 1];
      var last := edges[|edges| - 1];
      OutputsOfHoldsEachOutput(init, n);
      if n in last.outputs {
        var j :| 0 <= j < |last.outputs| && last.outputs[j] == n;
        assert edges[|edges| - 1].outputs[j] == n;
      }
      if exists i, j :: 0 <= i < |edges| && 0 <= j < |edges[i].outputs| && edges[i].outputs[j] == n {
        var i, j :| 0 <= i < |edges| && 0 <= j < |edges[i].outputs| && edges[i].outputs[j] == n;
        if i < |edges| - 1 {
          assert init[i].outputs[j] == n;
        } else {
          assert n in last.outputs;
        }
      }
    }
  }

  /** The roots among all outputs are exactly the outputs of some edge that
      no edge consumes. */
  lemma RootsAreUnconsumedOutputs(nodes: seq<Node>, edges: seq<Edge>)
    ensures forall n :: n in RootsAmong(nodes, OutputsOf(edges)) <==>
      IsRoot(nodes, n) &&
      exists i, j :: 0 <= i < |edges| && 0 <= j < |edges[i].outputs| && edges[i].outputs[j] == n
  {
    RootsAmongFilters(nodes, OutputsOf(edges));
    forall n {
      OutputsOfHoldsEachOutput(edges, n);
    }
  }

  /** The outputs of all edges that nothing consumes, scanned edge by edge
      in the order the edges were added. A graph with edges but without a
      single root is reported as an error. */
  method RootNodes(st: State) returns (roots: seq<NodeId>, err: Option<string>)
    ensures roots == RootsAmong(st.nodes, OutputsOf(st.edges))
    ensures forall n :: n in roots <==>
      IsRoot(st.nodes, n) &&
      exists i, j :: 0 <= i < |st.edges| && 0 <= j < |st.edges[i].outputs| && st.edges[i].outputs[j] == n
    ensures err.Some? <==> st.edges != [] && roots == []
    ensures err.Some? ==> err.value == "could not determine root nodes of build graph"
  {
    roots := [];
    var e := 0;
    while e < |st.edges|
      invariant 0 <= e <= |st.edges|
      invariant roots == RootsAmong(st.nodes, OutputsOf(st.edges[..e]))
    {
      var outs := st.edges[e].outputs;
      ghost var before := OutputsOf(st.edges[..e]);
      var k := 0;
      assert before + outs[..0] == before;
      while k < |outs|
        invariant 0 <= k <= |outs|
        invariant roots == RootsAmong(st.nodes, before + outs[..k])
      {
        assert (before + outs[..k + 1])[..|before + outs[..k + 1]| - 1] == before + outs[..k];
        if IsRoot(st.nodes, outs[k]) {
          roots := roots + [outs[k]];
        }
        k := k + 1;
      }
      assert outs[..k] == outs;
      assert st.edges[..e + 1][..e] == st.edges[..e];
      e := e + 1;
    }
    assert st.edges[..e] == st.edges;
    RootsAreUnconsumedOutputs(st.nodes, st.edges);
    if |st.edges| > 0 && roots == [] {
      err := Some("could not determine root nodes of build graph");
    } else {
      err := None;
    }
  }

  // The graph `a -> b -> c` declared through the registry: two phony edges,
  // the first reading `a` and writing `b`, the second reading `b` and
  // writing `c`. `Chain0` to `Chain4` are the registries after each step,
  // written out; the `Chain*Step` lemmas show the operations produce them.

  const ChainEdge := NewEdge("phony", "", 1)

  function Chain0(): State {
    NewState().(edges := [ChainEdge, ChainEdge])
  }

  function Chain1(): State {
    Chain0().(paths := map["a" := 0],
              nodes := [Node("a", None, [0], Unknown)],
              edges := [ChainEdge.(inputs := [0]), ChainEdge])
  }

  function Chain2(): State {
    Chain1().(paths := map["a" := 0, "b" := 1],
              nodes := [Node("a", None, [0], Unknown), Node("b", Some(0), [], Unknown)],
              edges := [ChainEdge.(inputs := [0], outputs := [1]), ChainEdge])
  }

  function Chain3(): State {
    Chain2().(nodes := [Node("a", None, [0], Unknown), Node("b", Some(0), [1], Unknown)],
              edges := [ChainEdge.(inputs := [0], outputs := [1]), ChainEdge.(inputs := [1])])
  }

  function Chain4(): State {
    Chain3().(paths := map["a" := 0, "b" := 1, "c" := 2],
              nodes := [Node("a", None, [0], Unknown), Node("b", Some(0), [1], Unknown),
                        Node("c", Some(1), [], Unknown)],
              edges := [ChainEdge.(inputs := [0], outputs := [1]), ChainEdge.(inputs := [1], outputs := [2])])
  }

  lemma ChainEdgesStep()
    ensures var (st1, ab) := AddEdge(NewState(), "phony", "", 1);
      var (st2, bc) := AddEdge(st1, "phony", "", 1);
      ab == 0 && bc == 1 && st2 == Chain0() && Valid(st2)
  {
    var (st1, ab) := AddEdge(NewState(), "phony", "", 1);
    var (st2, bc) := AddEdge(st1, "phony", "", 1);
    assert st2.edges == [ChainEdge, ChainEdge];
  }

  lemma ChainInputAStep()
    requires Valid(Chain0())
    ensures AddIn(Chain0(), 0, "a") == Chain1() && Valid(Chain1())
  {
    var (st1, n) := GetNode(Chain0(), "a");
    assert n == 0 && st1.nodes == [NewNode("a")] && st1.paths == map["a" := 0];
    var r := AddIn(Chain0(), 0, "a");
    assert |r.nodes| == 1 && r.nodes[0] == Node("a", None, [0], Unknown);
    assert r.nodes == Chain1().nodes;
    assert |r.edges| == 2 && r.edges[0] == ChainEdge.(inputs := [0]) && r.edges[1] == ChainEdge;
    assert r.edges == Chain1().edges;
  }

  lemma ChainOutputBStep()
    requires Valid(Chain1())
    ensures AddOut(Chain1(), 0, "b").0 == Chain2() && Valid(Chain2())
  {
    var (st1, n) := GetNode(Chain1(), "b");
    assert n == 1 && st1.nodes == Chain1().nodes + [NewNode("b")] && st1.paths == map["a" := 0, "b" := 1];
    var r := AddOut(Chain1(), 0, "b").0;
    assert |r.nodes| == 2 && r.nodes[0] == st1.nodes[0] && r.nodes[1] == Node("b", Some(0), [], Unknown);
    assert r.nodes == Chain2().nodes;
    assert |r.edges| == 2 && r.edges[0] == ChainEdge.(inputs := [0], outputs := [1]) && r.edges[1] == ChainEdge;
    assert r.edges == Chain2().edges;
  }

  lemma ChainInputBStep()
    requires Valid(Chain2())
    ensures AddIn(Chain2(), 1, "b") == Chain3() && Valid(Chain3())
  {
    assert GetNode(Chain2(), "b") == (Chain2(), 1);
    var r := AddIn(Chain2(), 1, "b");
    assert |r.nodes| == 2 && r.nodes[0] == Chain2().nodes[0] && r.nodes[1] == Node("b", Some(0), [1], Unknown);
    assert r.nodes == Chain3().nodes;
    assert |r.edges| == 2 && r.edges[0] == Chain2().edges[0] && r.edges[1] == ChainEdge.(inputs := [1]);
    assert r.edges == Chain3().edges;
  }

  lemma ChainRegisterCStep()
    requires Valid(Chain3())
    ensures GetNode(Chain3(), "c")
      == (Chain3().(paths := Chain4().paths, nodes := Chain3().nodes + [NewNode("c")]), 2)
  {
  }

  lemma ChainOutputCStep()
    requires Valid(Chain3())
    ensures AddOut(Chain3(), 1, "c").0 == Chain4() && Valid(Chain4())
  {
    ChainRegisterCStep();
    var st1 := Chain3().(paths := Chain4().paths, nodes := Chain3().nodes + [NewNode("c")]);
    var r := AddOut(Chain3(), 1, "c").0;
    assert r.nodes == Chain4().nodes by {
      assert |r.nodes| == 3 && r.nodes[0] == st1.nodes[0] && r.nodes[1] == st1.nodes[1];
      assert r.nodes[2] == Node("c", Some(1), [], Unknown);
    }
    assert r.edges == Chain4().edges by {
      assert |r.edges| == 2 && r.edges[0] == Chain3().edges[0];
      assert r.edges[1] == ChainEdge.(inputs := [1], outputs := [2]);
    }
  }

  lemma ChainRoots()
    ensures RootsAmong(Chain4().nodes, OutputsOf(Chain4().edges)) == [2]
  {
    var st := Chain4();
    assert OutputsOf(st.edges) == [1, 2] by {
      assert st.edges[..1] == [st.edges[0]] && st.edges[..1][..0] == [];
      assert OutputsOf(st.edges[..1]) == [1];
    }
    assert !IsRoot(st.nodes, 1) && IsRoot(st.nodes, 2);
    assert RootsAmong(st.nodes, [1]) == [] by {
      assert [1][..0] == [];
    }
    assert [1, 2][..1] == [1];
  }

  /** The registry after declaring `a -> b -> c` through `AddEdge`,
      `AddIn` and `AddOut`. */
  function ChainGraph(): State {
    var (st1, ab) := AddEdge(NewState(), "phony", "", 1);
    var (st2, bc) := AddEdge(st1, "phony", "", 1);
    var st3 := AddIn(st2, ab, "a");
    var st4 := AddOut(st3, ab, "b").0;
    var st5 := AddIn(st4, bc, "b");
    AddOut(st5, bc, "c").0
  }

  /** In the graph `a -> b -> c` the wiring makes `c` the only root: `b` is
      an output too, but the second edge consumes it. */
  lemma ChainHasOneRoot()
    ensures var st := ChainGraph();
      && "b" in st.paths && "c" in st.paths
      && !IsRoot(st.nodes, st.paths["b"])
      && RootsAmong(st.nodes, OutputsOf(st.edges)) == [st.paths["c"]]
  {
    ChainEdgesStep();
    ChainInputAStep();
    ChainOutputBStep();
    ChainInputBStep();
    ChainOutputCStep();
    assert ChainGraph() == Chain4();
    ChainRoots();
  }

  /** The explicit default targets when there are any, the root nodes
      otherwise. */
  method DefaultNodes(st: State) returns (targets: seq<NodeId>, err: Option<string>)
    ensures st.defaults != [] ==> targets == st.defaults && err == None
    ensures st.defaults == [] ==> targets == RootsAmong(st.nodes, OutputsOf(st.edges))
    ensures st.defaults == [] ==>
      err == (if st.edges != [] && targets == [] then Some("could not determine root nodes of build graph") else None)
  {
    if st.defaults != [] {
      targets, err := st.defaults, None;
    } else {
      targets, err := RootNodes(st);
    }
  }

  // ---------------------------------------------------------------- spellcheck

  /** Index `i` of `order` holds the first path closest to `path` among all
      of `order`, and that path is within the valid edit distance. */
  predicate IsFirstClosest(order: seq<string>, path: string, dist: (string, string) -> nat, i: int) {
    && 0 <= i < |order|
    && dist(order[i], path) <= MaxValidEditDistance
    && (forall j :: 0 <= j < |order| ==> dist(order[i], path) <= dist(order[j], path))
    && (forall j :: 0 <= j < i ==> dist(order[i], path) < dist(order[j], path))
  }

  /** The registered node whose path is closest to `path`, if one is within
      the valid edit distance. `dist` stands for the edit distance and
      `order` for the order in which the path table is enumerated; among
      equally close paths the first one enumerated wins. */
  method SpellcheckNode(st: State, path: string, order: seq<string>, dist: (string, string) -> nat)
    returns (r: Option<NodeId>)
    requires forall k :: k in order ==> k in st.paths
    requires forall k :: k in st.paths ==> k in order
    ensures r.None? <==> forall p :: p in st.paths ==> dist(p, path) > MaxValidEditDistance
    ensures r.Some? ==> exists i :: IsFirstClosest(order, path, dist, i) && r.value == st.paths[order[i]]
  {
    var minDistance := MaxValidEditDistance + 1;
    r := None;
    ghost var best := -1;
    var i := 0;
    while i < |order|
      invariant 0 <= i <= |order|
      invariant r.None? <==> best == -1
      invariant best == -1 ==> minDistance == MaxValidEditDistance + 1
      invariant best == -1 ==> forall j :: 0 <= j < i ==> dist(order[j], path) > MaxValidEditDistance
      invariant best != -1 ==> 0 <= best < i && r == Some(st.paths[order[best]])
      invariant best != -1 ==> minDistance == dist(order[best], path) <= MaxValidEditDistance
      invariant best != -1 ==> forall j :: 0 <= j < i ==> minDistance <= dist(order[j], path)
      invariant best != -1 ==> forall j :: 0 <= j < best ==> minDistance < dist(order[j], path)
    {
      var distance := dist(order[i], path);
      if distance < minDistance {
        minDistance := distance;
        r := Some(st.paths[order[i]]);
        best := i;
      }
      i := i + 1;
    }
    if best != -1 {
      assert IsFirstClosest(order, path, dist, best);
      var p := order[best];
      assert p in st.paths;
    } else {
      forall p | p in st.paths
        ensures dist(p, path) > MaxValidEditDistance
      {
        assert p in order;
        var j :| 0 <= j < |order| && order[j] == p;
      }
    }
  }

  // ---------------------------------------------------------------- reset

  /** Prepares a fresh traversal: every node's status becomes unknown and
      every edge's outputs-ready flag is cleared; the graph itself is left
      as it is. */
  function Reset(st: State): (r: State)
    ensures |r.nodes| == |st.nodes| && |r.edges| == |st.edges|
    ensures forall i :: 0 <= i < |st.nodes| ==>
      r.nodes[i].status == Unknown && r.nodes[i].path == st.nodes[i].path
      && r.nodes[i].inEdge == st.nodes[i].inEdge && r.nodes[i].outEdges == st.nodes[i].outEdges
    ensures forall i :: 0 <= i < |st.edges| ==>
      !r.edges[i].outputsReady && r.edges[i] == st.edges[i].(outputsReady := false)
    ensures r.rules == st.rules && r.pools == st.pools && r.paths == st.paths && r.defaults == st.defaults
    ensures Valid(st) ==> Valid(r)
  {
    var nodes := seq(|st.nodes|, i requires 0 <= i < |st.nodes| => st.nodes[i].(status := Unknown));
    var edges := seq(|st.edges|, i requires 0 <= i < |st.edges| => st.edges[i].(outputsReady := false));
    var r := st.(nodes := nodes, edges := edges);
    assert Valid(st) ==> Valid(r) by {
      if Valid(st) {
        forall i | 0 <= i < |r.nodes|
          ensures NodeRefsOk(r.nodes[i], |r.edges|)
        {
          assert NodeRefsOk(st.nodes[i], |st.edges|);
        }
        forall i | 0 <= i < |r.edges|
          ensures EdgeRefsOk(r.edges[i], |r.nodes|)
        {
          assert EdgeRefsOk(st.edges[i], |st.nodes|);
        }
      }
    }
    r
  }

  /** Resetting twice is resetting once. */
  lemma ResetIsIdempotent(st: State)
    ensures Reset(Reset(st)) == Reset(st)
  {
    var once := Reset(st);
    var twice := Reset(once);
    assert twice.nodes == once.nodes;
    assert twice.edges == once.edges;
  }
}
