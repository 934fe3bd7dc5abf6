# Build-graph registry, pool admission and ready-edge scheduling

This project models the scheduling core of the ninja build tool (the mutac
fork) in Dafny and proves properties of that model. The core has three parts:

- **`State`**, the registry. It owns the rule table, the pool table, the
  path-to-node table, the edge list and the default targets. It wires edges
  to their input and output nodes, and it answers the graph-wide queries:
  root nodes, default nodes, spellcheck suggestions and reset.
- **`Pool`**, admission control for one resource pool. It tracks the summed
  weight of the edges running in the pool (only when the depth is non-zero)
  and keeps edges that do not fit in a first-in first-out queue.
- **`Scheduler`**, the set of ready edges. Each ready edge is also held in a
  priority queue, which hands out the heaviest edge first.

Every pointer to a node or an edge in ninja's C++ code becomes an index into
an arena that the registry owns (`State.nodes`, `State.edges`). `Registry.Valid` is the
registry's class invariant. It has two parts. `Registry.Indexed` says that
every rule and pool is filed under its own name, that the path table and the
node arena correspond one to one, and that every stored index points into
its arena. `Registry.Wired` says that the two sides of every link agree: an
edge lists a node among its inputs exactly when the node lists the edge
among its consumers, and a node's producer lists the node among its outputs.
`Registry.NewState` establishes this invariant and every operation keeps it. The
scheduler has its own class invariant, `Scheduling.Valid`: the queue holds
exactly the ready edges, each of them once.

Files:

- `wrappers.dfy`: `Option` (in place of NULL) and `Outcome` (in place of the `string* err` returns).
- `graph.dfy`: node and edge ids, and the `Node`, `Edge`, `Rule` and `Status` records.
- `scheduler.dfy`: module `Scheduling`.
- `pool.dfy`: module `Pools`.
- `state.dfy`: module `Registry`.

Modelling choices:

- **Edge weight.** `Edge::weight()` is defined in graph.h, which is not part
  of this model. Each `Edge` record carries a `weight`, set when `AddEdge`
  creates it. Pools and the scheduler take the weights as a parameter
  `w: Weights` (`EdgeId -> int`), so their properties hold for any weights.
  `Registry.WeightsOf` gives the registry's own weights in that form, and
  `Registry.AddEdgeSetsDispatchWeight` shows that the weight given to
  `AddEdge` is the one a pool charges.
- **Shared pools.** The registry's pool table holds pointers, and the pool
  operations change the registered pool in place. Here pools are values: the
  `Pools` functions return the changed pool, and `Registry.UpdatePool` stores
  it back under its name.
- **Dispatch order.** `EdgeWeightComparison` is also in graph.h. It is
  modelled as `Scheduling.Outranks`: the heavier edge runs first, and
  between equally heavy edges the one created first (the lower edge id) runs
  first. This is a strict total order on edges.
- **Priority queue.** The queue is modelled as the sequence of its elements.
  `NextUnit` takes out an element that no other queued edge outranks.
  Because `Outranks` is total, that element is unique.
- **Edit distance.** `EditDistance` (edit_distance.h) is a parameter
  `dist: (string, string) -> nat`. It stands for the call with replacements
  allowed and a maximum distance of 3.
- **Path-table order.** The order in which the path hash table is walked is
  a parameter `order`. It lists exactly the registered paths.
- **Node reset.** `Node::ResetState` is modelled as setting the node's
  status to `Unknown`.
- **Warnings and errors.** The duplicate-producer warning of `AddOut` is a
  returned boolean. The error strings of `AddDefault` and `RootNodes` are
  returned values, and `AddDefault` returns the registry unchanged when it
  fails.
- **Debug asserts.** ninja's code asserts that a rule or pool name is new, and
  that a pool delaying an edge has a non-zero depth. These asserts become
  `requires` clauses.

Two behaviours of the code are kept as they are:

- **Charging edges that are already ready.** The scheduler variant of
  `RetrieveReadyEdges` charges an edge to the pool even when the scheduler
  already holds it, in which case `Schedule` does nothing. The model keeps
  this double charge (`Pools.ReadyEdgeIsChargedTwice`).
- **The unconstrained pool.** The release loop compares usage plus weight
  against the depth even for the unconstrained pool, whose depth is 0. Only
  the `DelayEdge` precondition keeps that pool's queue empty, so the model
  states the within-depth bound only for pools of non-zero depth.

## Model

| member | source | states |
|---|---|---|
| `Scheduling.OutranksIsStrictTotalOrder` | src/schedule.h:19 | the comparator ordering the priority queue is irreflexive, asymmetric, transitive and total on distinct edges |
| `Scheduling.NewScheduler` | src/schedule.cc:8-10 | a new scheduler satisfies the class invariant and has no ready edge |
| `Scheduling.Schedule` | src/schedule.cc:12-23 | afterwards the edge is ready, the ready set grew by that edge only, and an edge that was already ready leaves the scheduler unchanged |
| `Scheduling.ScheduleKeepsInvariant` | src/schedule.cc:16-22 | `Schedule` keeps the queue holding exactly the ready edges, each once |
| `Scheduling.ScheduleIsIdempotent` | src/schedule.cc:16-22 | scheduling the same edge twice has the same effect as scheduling it once |
| `Scheduling.ScheduleCountsOnce` | src/schedule.cc:16-22 | `UnitsWaiting` grows by one when the edge was absent, and stays the same when it was already ready |
| `Scheduling.ScheduleAllSchedulesEach` | src/state.cc:53-61 | a run of `Schedule` calls adds exactly the given edges to the ready set and keeps the scheduler's invariant |
| `Scheduling.UnitsWaiting` | src/schedule.cc:42-45 | the count is the size of the ready set, and in a valid scheduler it equals the number of queued edges, so each ready edge is counted once |
| `Scheduling.TopIndex` | src/schedule.h:19 | the chosen queue element is outranked by no queued edge, as the top of the heap is |
| `Scheduling.NextUnit` | src/schedule.cc:25-40 | returns nothing exactly when no edge is ready, and then changes nothing; otherwise returns a ready edge that outranks every other ready edge, removes it from the ready set, and leaves a valid scheduler |
| `Scheduling.NextUnitCountsDown` | src/schedule.cc:36-37 | dispatching an edge lowers `UnitsWaiting` by one |
| `Scheduling.NewSchedulerIsEmpty` | src/schedule.cc:8-10 | a new scheduler is valid, has nothing waiting, and its `NextUnit` returns nothing |
| `Scheduling.DispatchOrder` | src/schedule.cc:25-40 | repeated `NextUnit` calls hand out every ready edge exactly once, each one ahead of all later ones under the comparator |
| `Scheduling.DispatchOrderExample` | src/schedule.cc:25-40 | edges of weights 5, 1, 5 and 3 scheduled in that order are dispatched as the two weight-5 edges (creation order), then weight 3, then weight 1 |
| `Pools.EdgeScheduled` | src/state.cc:26-29 | only the pool's usage changes: it grows by the edge's weight in a constrained pool and stays the same in an unconstrained one |
| `Pools.EdgeFinished` | src/state.cc:31-34 | only the pool's usage changes: it shrinks by the edge's weight in a constrained pool and stays the same in an unconstrained one |
| `Pools.FinishedUndoesScheduled` | src/state.cc:26-34 | finishing an edge restores the pool as it was before the edge was scheduled, and the other way round |
| `Pools.DelayEdge` | src/state.cc:36-39 | may be called only on a pool of non-zero depth; appends the edge to the back of the queue and changes nothing else |
| `Pools.Release` | src/state.cc:41-50 | reference definition of the release loop; its own contract says that the released edges followed by the still-waiting ones are the old queue, and that name and depth are kept |
| `Pools.ReleaseTakesPrefix` | src/state.cc:41-50 | release stops only when the queue is empty or the front edge would push usage past the depth, so no edge that fits is left at the front |
| `Pools.ReleaseCharges` | src/state.cc:41-50 | usage grows by exactly the charge for the released edges; a constrained pool that released anything ends within its depth |
| `Pools.ReleaseAdmitsOnlyFitting` | src/state.cc:42-48 | each released edge fitted into the budget left by the edges released before it |
| `Pools.RetrieveReadyEdges` | src/state.cc:41-50 | the loop releases exactly the prefix that the release step describes, adds those edges to the ready set, and leaves the pool as that step does |
| `Pools.RetrieveReadyEdgesToScheduler` | src/state.cc:52-62 | the loop leaves the pool as the release step does, and the scheduler as if it had scheduled the released edges one by one, in queue order |
| `Pools.DelayedEdgeWaitsItsTurn` | src/state.cc:36-50 | delaying an edge never changes which earlier edges are released, and the edge is released only when every earlier edge has been |
| `Pools.FifoAdmissionExample` | src/state.cc:41-50 | with depth 4 and waiting weights 3, 3, 1, only the first edge is released, although the weight-1 edge alone would fit; after it finishes, the other two are released together and usage reaches exactly 4 |
| `Pools.ReadyEdgeIsChargedTwice` | src/state.cc:59-60 | releasing an edge that the scheduler already holds still adds its weight to usage, while the ready set stays the same |
| `Registry.LookupRule` | src/state.cc:87-92 | returns nothing exactly for an unregistered name; otherwise returns the rule registered under it |
| `Registry.AddRule` | src/state.cc:82-85 | may be called only with a new name; afterwards that name looks up the added rule, every other name looks up what it did before, and the other tables are unchanged |
| `Registry.LookupPool` | src/state.cc:99-104 | returns nothing exactly for an unregistered name; otherwise returns the pool registered under it |
| `Registry.AddPool` | src/state.cc:94-97 | may be called only with a new name; afterwards that name looks up the added pool, every other name looks up what it did before, and the other tables are unchanged |
| `Registry.UpdatePool` | src/state.cc:94-104 | stands for the in-place change of a registered pool, which may not change its depth: afterwards the pool's name looks up the new pool, every other name looks up what it did before, the set of pool names and the other tables are unchanged, and the registry stays valid |
| `Registry.UpdatedUsageIsSeen` | src/state.cc:26-34 | after scheduling an edge into a registered pool, the registry reports usage grown by that edge's charge; finishing the edge restores what it reported before |
| `Registry.NewState` | src/state.cc:74-80 | a new registry is valid, knows only the rule "phony" and the depth-0 pool "", and has no nodes, edges or defaults |
| `Registry.AddEdge` | src/state.cc:106-113 | appends one new edge, with no inputs or outputs and outputs not ready, at the next index; earlier edges and all other tables are unchanged |
| `Registry.WeightsOf` | src/state.cc:26-62 | stands for `Edge::weight()` as the pool operations read it: for every registered edge, the weight stored in that edge |
| `Registry.AddEdgeSetsDispatchWeight` | src/state.cc:26-29 | the new edge's weight is the one passed to `AddEdge`, earlier edges keep theirs, and a constrained pool is charged exactly that weight when the edge starts |
| `Registry.LookupNode` | src/state.cc:124-130 | returns nothing exactly for an unregistered path; otherwise returns the node carrying that path |
| `Registry.GetNode` | src/state.cc:115-122 | returns the registered node for the path, if there is one, and changes nothing; otherwise registers one new node under the path at the next index; the path table grows by at most that key; the registry stays valid |
| `Registry.GetNodeIsIdempotent` | src/state.cc:115-122 | a second `GetNode` with the same path returns the same node and changes nothing |
| `Registry.RegisterNodeKeepsValid` | src/state.cc:119-120 | registering a fresh node, linked to no edge, under a new path keeps every index in range and every link consistent |
| `Registry.AddIn` | src/state.cc:149-153 | appends the path's node to the edge's inputs and the edge to the node's out-edges; no other edge or node changes; the registry stays valid |
| `Registry.LinkInputKeepsValid` | src/state.cc:149-153 | linking a node as an edge's input on both sides keeps the registry valid, including agreement of the two sides of every link |
| `Registry.AddOut` | src/state.cc:155-164 | appends the path's node to the edge's outputs and makes the edge its producer, replacing any earlier one; warns exactly when the node already had a producer; no other edge or node changes |
| `Registry.LinkOutputKeepsValid` | src/state.cc:155-164 | making an edge a node's producer and listing the node among its outputs keeps the registry valid, whatever producer the node had before |
| `Registry.SecondProducerWinsWithWarning` | src/state.cc:155-164 | when two edges declare the same output, the second one warns and ends up as the node's producer |
| `Registry.AddDefault` | src/state.cc:166-174 | fails with "unknown target '<path>'" exactly when the path is unregistered, and then leaves the registry unchanged; otherwise appends exactly that node to the defaults and creates no node |
| `Registry.RootsAmongFilters` | src/state.cc:180-184 | the scan keeps exactly those outputs that no edge consumes |
| `Registry.OutputsOfHoldsEachOutput` | src/state.cc:179-181 | a node is among the scanned outputs exactly when some registered edge lists it as an output |
| `Registry.RootsAreUnconsumedOutputs` | src/state.cc:176-185 | the roots are exactly the outputs of registered edges that have no out-edges |
| `Registry.RootNodes` | src/state.cc:176-192 | the nested loop returns the unconsumed outputs edge by edge, in output order; it reports the error exactly when there are edges but no root |
| `Registry.ChainHasOneRoot` | src/state.cc:149-185 | declaring a -> b -> c through `AddEdge`, `AddIn` and `AddOut` wires b as consumed and c as the only root |
| `Registry.DefaultNodes` | src/state.cc:194-196 | returns the explicit defaults, without error, when there are any; otherwise returns the root nodes, with the error "could not determine root nodes of build graph" exactly when there are edges but no root |
| `Registry.SpellcheckNode` | src/state.cc:132-147 | returns nothing exactly when no registered path is within edit distance 3; otherwise returns the node of a path at minimal distance, the first such path in table order |
| `Registry.Reset` | src/state.cc:198-203 | every node's status becomes unknown and every edge's outputs-ready flag is cleared; paths, producers, consumers, inputs, outputs, weights and the tables are untouched; the registry stays valid |
| `Registry.ResetIsIdempotent` | src/state.cc:198-203 | resetting twice gives the same registry as resetting once |

## Left out

- `Pool::Dump` and `State::Dump` (src/state.cc:64-72, src/state.cc:205-223): they only print.
- The text of the duplicate-producer warning: the model returns only whether the warning fires.
- The `METRIC_RECORD` timing in `LookupNode` and the `EXPLAIN` trace in `NextUnit`: both are output only.
- The internals of `EditDistance`, which is in edit_distance.h and not part of this model: it is a parameter returning a natural number.
- The `bindings_` environment that `AddEdge` attaches to each edge: it is opaque and no contract here depends on it.
- How `Edge::weight()` is derived, and the exact tie-break of `EdgeWeightComparison`: both are in graph.h, which is not part of this model. The weight is supplied to `AddEdge`, and ties are broken by creation order.
- Node state beyond its status: whatever else `Node::ResetState` clears (graph.h) is not modelled.
- Heap allocation and pointer lifetimes: edges and nodes are arena indices that are never freed.
- The null check on the table entry in `SpellcheckNode`: the model's path table always maps to a real node.
- The debug abort when `RootNodes` finds no root in a non-empty graph: the model returns the error string only, since such a graph (a cycle, say) can be built.
- The width of `current_use_` and `depth_`: usage is an unbounded integer, and 32-bit overflow of `int` is not modelled.
- The `Pool` constructor (state.h): a new pool is assumed to start with zero usage and an empty queue.
- The heap layout of the priority queue: it is a sequence, and only which element is the top matters.
- The walk order of the path hash table: `SpellcheckNode` takes it as an input that lists exactly the registered paths.
