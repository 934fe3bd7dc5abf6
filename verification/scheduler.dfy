/** The ready set of the build loop and its priority dispatch.

    The scheduler keeps a membership set of ready edges next to a priority
    queue over the same edges. The queue is modelled as the sequence of its
    elements (the order of the heap's array is irrelevant); extracting the top
    picks an element no other queued edge outranks. */
module Scheduling {
  import opened Wrappers
  import opened Graph

  /** The dispatch order standing for `EdgeWeightComparison`: `a` runs ahead
      of `b` when it is heavier, and among equally heavy edges the one created
      first (the lower edge id) runs first. */
  predicate Outranks(w: Weights, a: EdgeId, b: EdgeId) {
    w(a) > w(b) || (w(a) == w(b) && a < b)
  }

  /** The comparator is a strict total order on edges, as a priority queue
      requires of it. */
  lemma OutranksIsStrictTotalOrder(w: Weights, a: EdgeId, b: EdgeId, c: EdgeId)
    ensures !Outranks(w, a, a)
    ensures Outranks(w, a, b) ==> !Outranks(w, b, a)
    ensures Outranks(w, a, b) && Outranks(w, b, c) ==> Outranks(w, a, c)
    ensures a != b ==> Outranks(w, a, b) || Outranks(w, b, a)
  {
  }

  predicate Distinct(q: seq<EdgeId>) {
    forall i, j :: 0 <= i < j < |q| ==> q[i] != q[j]
  }

  function SetOf(q: seq<EdgeId>): set<EdgeId> {
    set e | e in q
  }

  /** A sequence without repetitions has as many elements as its set. */
  lemma {:induction false} DistinctCard(q: seq<EdgeId>)
    requires Distinct(q)
    ensures |SetOf(q)| == |q|
  {
    if q != [] {
      var init := q[..|q| - 1];
      assert Distinct(init);
      DistinctCard(init);
      assert SetOf(q) == SetOf(init) + {q[|q| - 1]};
      assert q[|q| - 1] !in SetOf(init);
    }
  }

  datatype Scheduler = Scheduler(ready: set<EdgeId>, prioritized: seq<EdgeId>)

  /** The class invariant: the queue holds exactly the ready edges, each once. */
  predicate Valid(s: Scheduler) {
    && Distinct(s.prioritized)
    && (forall e :: e in s.prioritized ==> e in s.ready)
    && (forall e :: e in s.ready ==> e in s.prioritized)
  }

  /** A newly constructed scheduler: valid, with nothing ready. */
  function NewScheduler(): (r: Scheduler)
    ensures Valid(r) && r.ready == {}
  {
    Scheduler({}, [])
  }

  /** Idempotent enqueue: an edge that is not yet ready joins both the set
      and the queue; an edge that is already ready changes nothing. */
  function Schedule(s: Scheduler, e: EdgeId): (r: Scheduler)
    ensures e in r.ready
    ensures r.ready == s.ready + {e}
    ensures e in s.ready ==> r == s
  {
    if e in s.ready then s else Scheduler(s.ready + {e}, s.prioritized + [e])
  }

  /** `Schedule` keeps the queue holding exactly the ready edges, each once. */
  lemma ScheduleKeepsInvariant(s: Scheduler, e: EdgeId)
    requires Valid(s)
    ensures Valid(Schedule(s, e))
  {
  }

  /** Scheduling the edges of `es` one after the other, front first. */
  function ScheduleAll(s: Scheduler, es: seq<EdgeId>): Scheduler
    decreases |es|
  {
    if es == [] then s else Schedule(ScheduleAll(s, es[..|es| - 1]), es[|es| - 1])
  }

  /** A run of `Schedule` calls makes exactly the given edges ready in
      addition to those already ready, and keeps the scheduler's invariant. */
  lemma {:induction false} ScheduleAllSchedulesEach(s: Scheduler, es: seq<EdgeId>)
    decreases |es|
    ensures ScheduleAll(s, es).ready == s.ready + SetOf(es)
    ensures Valid(s) ==> Valid(ScheduleAll(s, es))
  {
    if es != [] {
      var init := es[..|es| - 1];
      ScheduleAllSchedulesEach(s, init);
      assert SetOf(es) == SetOf(init) + {es[|es| - 1]};
      if Valid(s) {
        ScheduleKeepsInvariant(ScheduleAll(s, init), es[|es| - 1]);
      }
    }
  }

  /** Scheduling one more edge extends a run of `Schedule` calls. */
  lemma ScheduleAllAppend(s: Scheduler, es: seq<EdgeId>, e: EdgeId)
    ensures ScheduleAll(s, es + [e]) == Schedule(ScheduleAll(s, es), e)
  {
    assert (es + [e])[..|es|] == es;
  }

  /** In a valid scheduler every ready edge is queued exactly once, so the
      ready set is as large as the queue is long. */
  lemma ReadyCountIsQueueLength(s: Scheduler)
    ensures Valid(s) ==> |s.ready| == |s.prioritized|
  {
    if Valid(s) {
      assert s.ready == SetOf(s.prioritized);
      DistinctCard(s.prioritized);
    }
  }

  /** The number of edges waiting to run: in a valid scheduler, also the
      length of the queue. */
  function UnitsWaiting(s: Scheduler): (n: nat)
    ensures n == |s.ready|
    ensures Valid(s) ==> n == |s.prioritized|
  {
    ReadyCountIsQueueLength(s);
    |s.ready|
  }

  /** The index of the queue's top: no queued edge outranks it. */
  function TopIndex(q: seq<EdgeId>, w: Weights): (i: nat)
    requires |q| > 0
    ensures i < |q|
    ensures forall j :: 0 <= j < |q| ==> !Outranks(w, q[j], q[i])
  {
    if |q| == 1 then 0
    else
      var k := TopIndex(q[..|q| - 1], w);
      if Outranks(w, q[|q| - 1], q[k]) then |q| - 1 else k
  }

  /** Removing one element of a sequence without repetitions removes exactly
      that edge and keeps the rest free of repetitions. */
  lemma RemoveAt(q: seq<EdgeId>, i: nat)
    requires Distinct(q) && i < |q|
    ensures Distinct(q[..i] + q[i + 1..])
    ensures forall e :: e in q[..i] + q[i + 1..] <==> e in q && e != q[i]
  {
    var r := q[..i] + q[i + 1..];
    assert forall k :: 0 <= k < |r| ==> r[k] == if k < i then q[k] else q[k + 1];
    forall e | e in q && e != q[i]
      ensures e in r
    {
      var k :| 0 <= k < |q| && q[k] == e;
      assert k != i;
      if k < i {
        assert r[k] == e;
      } else {
        assert r[k - 1] == e;
      }
    }
  }

  lemma ReadyMeansQueued(s: Scheduler)
    requires Valid(s) && s.ready != {}
    ensures |s.prioritized| > 0
  {
    var e :| e in s.ready;
    assert e in s.prioritized;
  }

  /** The outcome of `NextUnit`: the scheduler afterwards and the edge taken. */
  datatype Dispatch = Dispatch(scheduler: Scheduler, unit: Option<EdgeId>)

  /** Takes the highest-priority ready edge out of both the set and the
      queue, or reports that nothing is ready. */
  function NextUnit(s: Scheduler, w: Weights): (r: Dispatch)
    requires Valid(s)
    ensures r.unit.None? <==> s.ready == {}
    ensures r.unit.None? ==> r.scheduler == s
    ensures r.unit.Some? ==> r.unit.value in s.ready
    ensures r.unit.Some? ==> forall e :: e in s.ready && e != r.unit.value ==> Outranks(w, r.unit.value, e)
    ensures r.unit.Some? ==> r.scheduler.ready == s.ready - {r.unit.value}
    ensures Valid(r.scheduler)
  {
    if s.ready == {} then Dispatch(s, None)
    else
      ReadyMeansQueued(s);
      var q := s.prioritized;
      var i := TopIndex(q, w);
      RemoveAt(q, i);
      assert forall e :: e in s.ready && e != q[i] ==> Outranks(w, q[i], e) by {
        forall e | e in s.ready && e != q[i]
          ensures Outranks(w, q[i], e)
        {
          var j :| 0 <= j < |q| && q[j] == e;
          assert !Outranks(w, q[j], q[i]);
        }
      }
      Dispatch(Scheduler(s.ready - {q[i]}, q[..i] + q[i + 1..]), Some(q[i]))
  }

  /** A new scheduler is valid, has nothing waiting and dispatches nothing. */
  lemma NewSchedulerIsEmpty(w: Weights)
    ensures Valid(NewScheduler())
    ensures UnitsWaiting(NewScheduler()) == 0
    ensures NextUnit(NewScheduler(), w).unit == None
  {
  }

  /** Scheduling an edge twice is the same as scheduling it once. */
  lemma ScheduleIsIdempotent(s: Scheduler, e: EdgeId)
    ensures Schedule(Schedule(s, e), e) == Schedule(s, e)
  {
  }

  /** `UnitsWaiting` grows by one exactly when the scheduled edge was not
      already ready. */
  lemma ScheduleCountsOnce(s: Scheduler, e: EdgeId)
    requires Valid(s)
    ensures e !in s.ready ==> UnitsWaiting(Schedule(s, e)) == UnitsWaiting(s) + 1
    ensures e in s.ready ==> UnitsWaiting(Schedule(s, e)) == UnitsWaiting(s)
  {
    ScheduleKeepsInvariant(s, e);
  }

  /** `NextUnit` shrinks `UnitsWaiting` by one when it dispatches an edge. */
  lemma NextUnitCountsDown(s: Scheduler, w: Weights)
    requires Valid(s) && s.ready != {}
    ensures UnitsWaiting(NextUnit(s, w).scheduler) == UnitsWaiting(s) - 1
  {
  }

  /** Each edge of `order` runs ahead of every edge after it. */
  predicate InDispatchOrder(w: Weights, order: seq<EdgeId>) {
    forall i, j :: 0 <= i < j < |order| ==> Outranks(w, order[i], order[j])
  }

  /** Putting the top of a set in front of a dispatch order of the rest
      gives a dispatch order of the whole set. */
  lemma PrependTop(w: Weights, ready: set<EdgeId>, e: EdgeId, rest: seq<EdgeId>)
    requires e in ready && SetOf(rest) == ready - {e}
    requires Distinct(rest) && InDispatchOrder(w, rest)
    requires forall x :: x in ready && x != e ==> Outranks(w, e, x)
    ensures SetOf([e] + rest) == ready
    ensures Distinct([e] + rest) && InDispatchOrder(w, [e] + rest)
  {
    var order := [e] + rest;
    forall i, j | 0 <= i < j < |order|
      ensures Outranks(w, order[i], order[j])
    {
      assert order[j] == rest[j - 1];
      if i == 0 {
        assert rest[j - 1] in SetOf(rest);
      } else {
        assert order[i] == rest[i - 1];
      }
    }
    assert SetOf(order) == SetOf(rest) + {e} by {
      assert forall k :: 0 <= k < |rest| ==> order[k + 1] == rest[k];
    }
  }

  /** The order in which repeated `NextUnit` calls hand out the ready edges
      until none is left: every edge exactly once, each ahead of all that
      follow it under the comparator. */
  function DispatchOrder(s: Scheduler, w: Weights): (order: seq<EdgeId>)
    requires Valid(s)
    decreases |s.ready|
    ensures SetOf(order) == s.ready
    ensures Distinct(order) && InDispatchOrder(w, order)
  {
    var d := NextUnit(s, w);
    if d.unit.None? then []
    else
      var e := d.unit.value;
      assert |d.scheduler.ready| < |s.ready| by {
        assert d.scheduler.ready + {e} == s.ready;
      }
      var rest := DispatchOrder(d.scheduler, w);
      PrependTop(w, s.ready, e, rest);
      [e] + rest
  }

  /** With the weights of `DispatchOrderExample`, the only comparator-sorted
      arrangement of edges 0 to 3 is 0, 2, 3, 1. */
  lemma ExampleOrderIsForced(w: Weights, order: seq<EdgeId>)
    requires w(0) == 5 && w(1) == 1 && w(2) == 5 && w(3) == 3
    requires SetOf(order) == {0, 1, 2, 3} && Distinct(order) && InDispatchOrder(w, order)
    ensures order == [0, 2, 3, 1]
  {
    DistinctCard(order);
    assert |order| == 4;
    assert 0 in SetOf(order) && 2 in SetOf(order) && 3 in SetOf(order);
    assert forall j :: 0 < j < 4 ==> Outranks(w, order[0], order[j]);
    assert order[0] == 0;
    assert forall j :: 1 < j < 4 ==> Outranks(w, order[1], order[j]);
    assert order[1] == 2;
    assert Outranks(w, order[2], order[3]);
    assert order[2] == 3;
    assert order[3] in SetOf(order);
  }

  /** Scheduling edges 0 to 3 into a new scheduler queues them in order. */
  lemma ScheduleFourExample()
    ensures ScheduleAll(NewScheduler(), [0, 1, 2, 3]) == Scheduler({0, 1, 2, 3}, [0, 1, 2, 3])
  {
    var n := Scheduler({}, []);
    assert NewScheduler() == n;
    ScheduleAllAppend(n, [], 0);
    assert [] + [0] == [0];
    ScheduleAllAppend(n, [0], 1);
    assert [0] + [1] == [0, 1];
    ScheduleAllAppend(n, [0, 1], 2);
    assert [0, 1] + [2] == [0, 1, 2];
    ScheduleAllAppend(n, [0, 1, 2], 3);
    assert [0, 1, 2] + [3] == [0, 1, 2, 3];
  }

  /** Edges of weights 5, 1, 5 and 3 scheduled in that order are dispatched
      as the two weight-5 edges (creation order), then weight 3, then 1. */
  lemma DispatchOrderExample(w: Weights)
    requires w(0) == 5 && w(1) == 1 && w(2) == 5 && w(3) == 3
    ensures ScheduleAll(NewScheduler(), [0, 1, 2, 3]) == Scheduler({0, 1, 2, 3}, [0, 1, 2, 3])
    ensures DispatchOrder(ScheduleAll(NewScheduler(), [0, 1, 2, 3]), w) == [0, 2, 3, 1]
  {
    ScheduleFourExample();
    var s := Scheduler({0, 1, 2, 3}, [0, 1, 2, 3]);
    assert Valid(s);
    var order := DispatchOrder(s, w);
    ExampleOrderIsForced(w, order);
  }
}
