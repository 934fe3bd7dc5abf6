/** Admission control of a resource pool.

    A pool of non-zero depth bounds the summed weight of the edges it has let
    run; edges that do not fit wait in a first-in first-out queue. A pool of
    depth 0 is unconstrained and keeps no account of usage. */
module Pools {
  import opened Graph
  import Scheduling

  datatype Pool = Pool(name: string, depth: int, currentUse: int, delayed: seq<EdgeId>)

  /** A pool as it is declared: nothing in flight, nothing waiting. */
  function NewPool(name: string, depth: int): Pool {
    Pool(name, depth, 0, [])
  }

  /** The summed weight of a sequence of edges. */
  function Sum(w: Weights, es: seq<EdgeId>): int {
    if es == [] then 0 else w(es[0]) + Sum(w, es[1..])
  }

  /** What scheduling the edges `es` adds to the usage of a pool of this
      depth: their summed weight, or nothing for an unconstrained pool. */
  function Charge(depth: int, w: Weights, es: seq<EdgeId>): int {
    if depth != 0 then Sum(w, es) else 0
  }

  /** An edge starts running: a constrained pool counts its weight. */
  function EdgeScheduled(p: Pool, w: Weights, e: EdgeId): (r: Pool)
    ensures r.name == p.name && r.depth == p.depth && r.delayed == p.delayed
    ensures r.currentUse == p.currentUse + Charge(p.depth, w, [e])
  {
    assert Sum(w, [e]) == w(e) by { assert [e][1..] == []; }
    if p.depth != 0 then p.(currentUse := p.currentUse + w(e)) else p
  }

  /** An edge has finished: a constrained pool gives its weight back. */
  function EdgeFinished(p: Pool, w: Weights, e: EdgeId): (r: Pool)
    ensures r.name == p.name && r.depth == p.depth && r.delayed == p.delayed
    ensures r.currentUse == p.currentUse - Charge(p.depth, w, [e])
  {
    assert Sum(w, [e]) == w(e) by { assert [e][1..] == []; }
    if p.depth != 0 then p.(currentUse := p.currentUse - w(e)) else p
  }

  /** Finishing an edge undoes scheduling it, and the other way round. */
  lemma FinishedUndoesScheduled(p: Pool, w: Weights, e: EdgeId)
    ensures EdgeFinished(EdgeScheduled(p, w, e), w, e) == p
    ensures EdgeScheduled(EdgeFinished(p, w, e), w, e) == p
  {
  }

  /** An edge that does not fit waits at the back of the queue. Only a
      constrained pool may be asked to delay an edge. */
  function DelayEdge(p: Pool, e: EdgeId): (r: Pool)
    requires p.depth != 0
    ensures r.delayed == p.delayed + [e]
    ensures r.name == p.name && r.depth == p.depth && r.currentUse == p.currentUse
  {
    p.(delayed := p.delayed + [e])
  }

  /** The pool after releasing waiting edges, and the edges released. */
  datatype Released = Released(pool: Pool, edges: seq<EdgeId>)

  /** The release step shared by both `RetrieveReadyEdges` variants: take
      edges off the front of the queue while the front one fits into the
      remaining budget, charging each as it is taken. */
  function Release(p: Pool, w: Weights): (r: Released)
    decreases |p.delayed|
    ensures r.edges + r.pool.delayed == p.delayed
    ensures r.pool.name == p.name && r.pool.depth == p.depth
  {
    if p.delayed == [] then Released(p, [])
    else
      var e := p.delayed[0];
      if p.currentUse + w(e) > p.depth then Released(p, [])
      else
        var rest := Release(EdgeScheduled(p.(delayed := p.delayed[1..]), w, e), w);
        Released(rest.pool, [e] + rest.edges)
  }

  /** Unfolds one admitted front edge of a release. */
  lemma ReleaseStep(p: Pool, w: Weights)
    requires p.delayed != [] && p.currentUse + w(p.delayed[0]) <= p.depth
    ensures var e := p.delayed[0];
      var rest := Release(EdgeScheduled(p.(delayed := p.delayed[1..]), w, e), w);
      Release(p, w) == Released(rest.pool, [e] + rest.edges)
  {
  }

  lemma SumPrepend(w: Weights, e: EdgeId, es: seq<EdgeId>)
    ensures Sum(w, [e] + es) == w(e) + Sum(w, es)
  {
    assert ([e] + es)[1..] == es;
  }

  /** A release hands out a prefix of the queue, in queue order, keeps the
      rest queued, and stops only at an empty queue or at a front edge that
      would overflow the pool: it never skips ahead. */
  lemma {:induction false} ReleaseTakesPrefix(p: Pool, w: Weights)
    decreases |p.delayed|
    ensures var r := Release(p, w);
      r.pool.delayed == [] || r.pool.currentUse + w(r.pool.delayed[0]) > p.depth
  {
    if p.delayed != [] && p.currentUse + w(p.delayed[0]) <= p.depth {
      var next := EdgeScheduled(p.(delayed := p.delayed[1..]), w, p.delayed[0]);
      ReleaseStep(p, w);
      ReleaseTakesPrefix(next, w);
    }
  }

  /** A release charges the pool for exactly the edges it hands out, and a
      constrained pool that released anything is within its depth. */
  lemma {:induction false} ReleaseCharges(p: Pool, w: Weights)
    decreases |p.delayed|
    ensures Release(p, w).pool.currentUse == p.currentUse + Charge(p.depth, w, Release(p, w).edges)
    ensures p.depth != 0 && Release(p, w).edges != [] ==> Release(p, w).pool.currentUse <= p.depth
  {
    if p.delayed != [] && p.currentUse + w(p.delayed[0]) <= p.depth {
      var e := p.delayed[0];
      var next := EdgeScheduled(p.(delayed := p.delayed[1..]), w, e);
      ReleaseStep(p, w);
      ReleaseCharges(next, w);
      ReleaseTakesPrefix(next, w);
      SumPrepend(w, e, Release(next, w).edges);
    }
  }

  /** Every edge a release hands out fitted into the budget left by the
      edges released before it. */
  lemma {:induction false} ReleaseAdmitsOnlyFitting(p: Pool, w: Weights)
    decreases |p.delayed|
    ensures var r := Release(p, w);
      forall i :: 0 <= i < |r.edges| ==>
        p.currentUse + Charge(p.depth, w, r.edges[..i]) + w(r.edges[i]) <= p.depth
  {
    if p.delayed != [] && p.currentUse + w(p.delayed[0]) <= p.depth {
      var e := p.delayed[0];
      var next := EdgeScheduled(p.(delayed := p.delayed[1..]), w, e);
      ReleaseStep(p, w);
      ReleaseAdmitsOnlyFitting(next, w);
      ReleaseTakesPrefix(next, w);
      var rest := Release(next, w).edges;
      var edges := [e] + rest;
      assert edges == Release(p, w).edges;
      forall i | 0 <= i < |edges|
        ensures p.currentUse + Charge(p.depth, w, edges[..i]) + w(edges[i]) <= p.depth
      {
        if i == 0 {
          assert edges[..0] == [];
        } else {
          assert edges[..i] == [e] + rest[..i - 1];
          SumPrepend(w, e, rest[..i - 1]);
          assert edges[i] == rest[i - 1];
        }
      }
    }
  }

  /** One admitted front edge moves from what is still to be released to
      what has been released. */
  lemma ReleaseAdvances(p0: Pool, w: Weights, p: Pool, released: seq<EdgeId>)
    requires Release(p0, w) == Released(Release(p, w).pool, released + Release(p, w).edges)
    requires p.delayed != [] && p.currentUse + w(p.delayed[0]) <= p.depth
    ensures var next := EdgeScheduled(p.(delayed := p.delayed[1..]), w, p.delayed[0]);
      Release(p0, w) == Released(Release(next, w).pool, (released + [p.delayed[0]]) + Release(next, w).edges)
  {
    var next := EdgeScheduled(p.(delayed := p.delayed[1..]), w, p.delayed[0]);
    ReleaseStep(p, w);
    assert released + ([p.delayed[0]] + Release(next, w).edges)
        == (released + [p.delayed[0]]) + Release(next, w).edges;
  }

  /** A release that cannot admit its front edge releases nothing. */
  lemma ReleaseStops(p: Pool, w: Weights)
    requires p.delayed == [] || p.currentUse + w(p.delayed[0]) > p.depth
    ensures Release(p, w) == Released(p, [])
  {
  }

  /** Releases waiting edges into a plain set of ready edges, charging the
      pool for each. */
  method RetrieveReadyEdges(p: Pool, w: Weights, readyQueue: set<EdgeId>)
    returns (p': Pool, readyQueue': set<EdgeId>)
    ensures p' == Release(p, w).pool
    ensures readyQueue' == readyQueue + Scheduling.SetOf(Release(p, w).edges)
  {
    p', readyQueue' := p, readyQueue;
    ghost var released: seq<EdgeId> := [];
    while p'.delayed != []
      invariant Release(p, w) == Released(Release(p', w).pool, released + Release(p', w).edges)
      invariant readyQueue' == readyQueue + Scheduling.SetOf(released)
      decreases |p'.delayed|
    {
      var edge := p'.delayed[0];
      if p'.currentUse + w(edge) > p'.depth {
        ReleaseStops(p', w);
        break;
      }
      ReleaseAdvances(p, w, p', released);
      p' := p'.(delayed := p'.delayed[1..]);
      readyQueue' := readyQueue' + {edge};
      p' := EdgeScheduled(p', w, edge);
      assert Scheduling.SetOf(released + [edge]) == Scheduling.SetOf(released) + {edge};
      released := released + [edge];
    }
    ReleaseStops(p', w);
    assert released + [] == released;
  }

  /** Releases waiting edges straight into the scheduler, charging the pool
      for each. The charge is made even for an edge the scheduler already
      holds, whose `Schedule` call changes nothing. */
  method RetrieveReadyEdgesToScheduler(p: Pool, w: Weights, scheduler: Scheduling.Scheduler)
    returns (p': Pool, scheduler': Scheduling.Scheduler)
    ensures p' == Release(p, w).pool
    ensures scheduler' == Scheduling.ScheduleAll(scheduler, Release(p, w).edges)
  {
    p', scheduler' := p, scheduler;
    ghost var released: seq<EdgeId> := [];
    while p'.delayed != []
      invariant Release(p, w) == Released(Release(p', w).pool, released + Release(p', w).edges)
      invariant scheduler' == Scheduling.ScheduleAll(scheduler, released)
      decreases |p'.delayed|
    {
      var edge := p'.delayed[0];
      if p'.currentUse + w(edge) > p'.depth {
        ReleaseStops(p', w);
        break;
      }
      ReleaseAdvances(p, w, p', released);
      p' := p'.(delayed := p'.delayed[1..]);
      Scheduling.ScheduleAllAppend(scheduler, released, edge);
      scheduler' := Scheduling.Schedule(scheduler', edge);
      p' := EdgeScheduled(p', w, edge);
      released := released + [edge];
    }
    ReleaseStops(p', w);
    assert released + [] == released;
  }

  /** First in, first out: an edge delayed now is released only after every
      edge already waiting, and never changes which of them are released. */
  lemma {:induction false} DelayedEdgeWaitsItsTurn(p: Pool, w: Weights, e: EdgeId)
    requires p.depth != 0
    decreases |p.delayed|
    ensures Release(p, w).pool.delayed != [] ==>
      Release(DelayEdge(p, e), w).edges == Release(p, w).edges
    ensures Release(p, w).pool.delayed == [] ==>
      || Release(DelayEdge(p, e), w).edges == Release(p, w).edges
      || Release(DelayEdge(p, e), w).edges == Release(p, w).edges + [e]
  {
    var q := DelayEdge(p, e);
    if p.delayed == [] {
      assert q.delayed == [e];
      assert q.delayed[1..] == [];
    } else {
      var f := p.delayed[0];
      assert q.delayed[0] == f;
      if p.currentUse + w(f) <= p.depth {
        var next := EdgeScheduled(p.(delayed := p.delayed[1..]), w, f);
        assert q.delayed[1..] == p.delayed[1..] + [e];
        assert EdgeScheduled(q.(delayed := q.delayed[1..]), w, f) == DelayEdge(next, e);
        DelayedEdgeWaitsItsTurn(next, w, e);
      }
    }
  }

  /** A depth-4 pool with edges of weights 3, 3 and 1 waiting: only the
      first is released, although the weight-1 edge alone would fit; once it
      finishes, the other two are released together, filling the pool. */
  lemma FifoAdmissionExample(w: Weights)
    requires w(0) == 3 && w(1) == 3 && w(2) == 1
    ensures var p := DelayEdge(DelayEdge(DelayEdge(NewPool("link", 4), 0), 1), 2);
      var first := Release(p, w);
      && first.edges == [0]
      && first.pool.currentUse == 3
      && Release(EdgeFinished(first.pool, w, 0), w).edges == [1, 2]
      && Release(EdgeFinished(first.pool, w, 0), w).pool.currentUse == 4
  {
    var p := DelayEdge(DelayEdge(DelayEdge(NewPool("link", 4), 0), 1), 2);
    assert p.delayed == [0, 1, 2];
    var first := Release(p, w);
    assert first.edges == [0] by {
      assert p.delayed[1..] == [1, 2];
      var next := EdgeScheduled(p.(delayed := [1, 2]), w, 0);
      assert next.currentUse == 3;
      assert Release(next, w) == Released(next, []);
    }
    var p2 := EdgeFinished(first.pool, w, 0);
    assert p2.currentUse == 0 && p2.delayed == [1, 2];
    var second := Release(p2, w);
    assert second.edges == [1, 2] by {
      assert p2.delayed[1..] == [2];
      var n1 := EdgeScheduled(p2.(delayed := [2]), w, 1);
      var n2 := EdgeScheduled(n1.(delayed := []), w, 2);
      assert n2.currentUse == 4;
      assert Release(n2, w) == Released(n2, []);
      assert Release(n1, w).edges == [2];
    }
  }

  /** The scheduler variant charges an edge the scheduler already holds:
      usage grows by its weight while the ready set stays as it was. */
  lemma ReadyEdgeIsChargedTwice(p: Pool, w: Weights, s: Scheduling.Scheduler, e: EdgeId)
    requires p.depth != 0 && p.delayed == [e] && p.currentUse + w(e) <= p.depth
    requires e in s.ready
    ensures Release(p, w).edges == [e]
    ensures Release(p, w).pool.currentUse == p.currentUse + w(e)
    ensures Scheduling.ScheduleAll(s, Release(p, w).edges) == s
  {
    var next := EdgeScheduled(p.(delayed := []), w, e);
    assert Release(next, w) == Released(next, []);
    assert [e][..0] == [];
  }
}
