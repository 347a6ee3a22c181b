/**
 * The public operations that add hyperedges between nodes that already
 * exist: assignments of technicians to work orders and to activities, skill
 * assignments, and exclusions of a work order from a period. Each looks its
 * keys up first and returns the graph unchanged when one is missing.
 */
module GraphEdges {
  import opened Results
  import opened Sequences
  import opened GraphState
  import opened GraphInvariants
  import opened GraphOps
  import E = Environment
  import T = Technicians
  import W = WorkOrders

  // ------------------------------------------------ add_assignment_work_order

  /** The first lookup of `add_assignment_work_order` that fails, if any. */
  function AssignmentWorkOrderRejection(g: ScheduleGraph, worker: TechnicianId, workOrder: W.WorkOrderNumber,
                                        period: E.Period): (e: Option<ScheduleGraphError>)
    ensures e == Some(WorkerMissing) <==> Technician(worker) !in g.index
    ensures e == Some(WorkOrderMissing) <==> Technician(worker) in g.index && WorkOrder(workOrder) !in g.index
    ensures e == Some(PeriodMissing) <==>
      Technician(worker) in g.index && WorkOrder(workOrder) in g.index && Period(period) !in g.index
    ensures e.None? <==>
      Technician(worker) in g.index && WorkOrder(workOrder) in g.index && Period(period) in g.index
  {
    if Technician(worker) !in g.index then Some(WorkerMissing)
    else if WorkOrder(workOrder) !in g.index then Some(WorkOrderMissing)
    else if Period(period) !in g.index then Some(PeriodMissing)
    else None
  }

  /**
   * `add_assignment_work_order`: records an `Assign(None)` edge over the
   * worker, the work order and the period. It pushes the edge directly
   * instead of going through `add_edge`, so no incidence list changes.
   */
  function AddAssignmentWorkOrder(g: ScheduleGraph, worker: TechnicianId, workOrder: W.WorkOrderNumber,
                                  period: E.Period): (r: (GraphResult<EdgeIndex>, ScheduleGraph))
    ensures r.0.Err? <==> AssignmentWorkOrderRejection(g, worker, workOrder, period).Some?
    ensures r.0.Err? ==> r.0.error == AssignmentWorkOrderRejection(g, worker, workOrder, period).value && r.1 == g
    ensures r.0.Ok? ==>
      && r.0.value == |g.hyperedges|
      && r.1.nodes == g.nodes && r.1.index == g.index && r.1.incidence == g.incidence
      && r.1.hyperedges == g.hyperedges
           + [HyperEdge(Assign(None), [g.index[Technician(worker)], g.index[WorkOrder(workOrder)], g.index[Period(period)]])]
    ensures Aligned(g) ==> Aligned(r.1)
    ensures Valid(g) ==> Valid(r.1)
  {
    match AssignmentWorkOrderRejection(g, worker, workOrder, period)
    case Some(e) => (Err(e), g)
    case None =>
      var ns := [g.index[Technician(worker)], g.index[WorkOrder(workOrder)], g.index[Period(period)]];
      PushBypassValid(g, ns);
      assert Aligned(g) ==> AllBelow(ns, |g.nodes|);
      (Ok(|g.hyperedges|), g.(hyperedges := g.hyperedges + [HyperEdge(Assign(None), ns)]))
  }

  /**
   * The work-order assignment edge is invisible through the incidence lists:
   * starting from a valid graph, no node's list names it.
   */
  lemma AssignmentWorkOrderNotIncident(g: ScheduleGraph, worker: TechnicianId, workOrder: W.WorkOrderNumber,
                                       period: E.Period, n: NodeIndex)
    requires Valid(g) && n < |g.nodes|
    requires AddAssignmentWorkOrder(g, worker, workOrder, period).0.Ok?
    ensures var r := AddAssignmentWorkOrder(g, worker, workOrder, period);
      r.0.value !in r.1.incidence[n]
  {
    var r := AddAssignmentWorkOrder(g, worker, workOrder, period);
    if r.0.value in g.incidence[n] {
      var k :| 0 <= k < |g.incidence[n]| && g.incidence[n][k] == r.0.value;
      IncidenceSound(g, n, k);
    }
  }

  // ----------------------------------------------- add_assign_skill_to_worker

  /**
   * `add_assign_skill_to_worker`: a HasSkill edge from the worker to the
   * skill; the worker lookup comes first.
   */
  function AddAssignSkillToWorker(g: ScheduleGraph, worker: TechnicianId, skill: T.Skill): (r: (GraphResult<EdgeIndex>, ScheduleGraph))
    requires Aligned(g)
    ensures r.0.Err? <==> Technician(worker) !in g.index || Skill(skill) !in g.index
    ensures r.0.Err? ==> r.1 == g && r.0.error == if Technician(worker) !in g.index then WorkerMissing else SkillMissing
    ensures r.0.Ok? ==>
      && r.0.value == |g.hyperedges|
      && r.1.nodes == g.nodes && r.1.index == g.index
      && r.1.hyperedges == g.hyperedges + [HyperEdge(HasSkill, [g.index[Technician(worker)], g.index[Skill(skill)]])]
    ensures Aligned(r.1)
    ensures Valid(g) ==> Valid(r.1)
  {
    if Technician(worker) !in g.index then (Err(WorkerMissing), g)
    else if Skill(skill) !in g.index then (Err(SkillMissing), g)
    else
      var ns := [g.index[Technician(worker)], g.index[Skill(skill)]];
      AddEdgeValid(g, HasSkill, ns);
      var r := AddEdge(g, HasSkill, ns);
      (Ok(r.0), r.1)
  }

  // ------------------------------------------------------------ add_exclusion

  /**
   * The dates among `count` consecutive dates from `start` that have a day
   * node, ascending: the order in which the ordered day index yields them.
   */
  function IndexedDates(g: ScheduleGraph, start: E.Date, count: nat): (ds: seq<E.Date>)
    ensures forall d :: d in ds <==> start <= d < start + count && Day(d) in g.index
    ensures StrictlyIncreasing(ds)
    ensures forall i :: 0 <= i < |ds| ==> start <= ds[i] < start + count
    decreases count
  {
    if count == 0 then []
    else
      var last := start + count - 1;
      IndexedDates(g, start, count - 1) + (if Day(last) in g.index then [last] else [])
  }

  /** Once all of a period's days have nodes, the exclusion window lists exactly them, in date order. */
  lemma IndexedDatesOfIndexedPeriod(g: ScheduleGraph, p: E.Period)
    requires forall d :: InPeriod(p, d) ==> Day(d) in g.index
    ensures IndexedDates(g, p.startDate, E.PeriodLength) == DateRange(p.startDate, E.PeriodLength)
  {
    StrictlyIncreasingUnique(IndexedDates(g, p.startDate, E.PeriodLength), DateRange(p.startDate, E.PeriodLength));
  }

  /** The handles of the period's indexed day nodes, in date order. */
  function PeriodDayHandles(g: ScheduleGraph, period: E.Period): (hs: seq<NodeIndex>)
    ensures |hs| == |IndexedDates(g, period.startDate, E.PeriodLength)|
    ensures Aligned(g) ==> AllBelow(hs, |g.nodes|)
  {
    Handles(g, DayKeys(IndexedDates(g, period.startDate, E.PeriodLength)))
  }

  /** The node list of an exclusion edge: the work order, the period, then the period's day nodes in date order. */
  function ExclusionEdgeNodes(g: ScheduleGraph, workOrder: W.WorkOrderNumber, period: E.Period): (ns: seq<NodeIndex>)
    requires Aligned(g) && WorkOrder(workOrder) in g.index && Period(period) in g.index
    ensures AllBelow(ns, |g.nodes|)
  {
    AllBelowThreeBlocks(g.index[WorkOrder(workOrder)], [g.index[Period(period)]], PeriodDayHandles(g, period), |g.nodes|);
    [g.index[WorkOrder(workOrder)]] + [g.index[Period(period)]] + PeriodDayHandles(g, period)
  }

  /**
   * `add_exclusion`: an Exclude edge from the work order to the period and
   * to every day node dated from the period's start through the thirteenth
   * day after it.
   */
  function AddExclusion(g: ScheduleGraph, workOrder: W.WorkOrderNumber, period: E.Period): (r: (GraphResult<EdgeIndex>, ScheduleGraph))
    requires Aligned(g)
    ensures r.0.Err? <==> WorkOrder(workOrder) !in g.index || Period(period) !in g.index
    ensures r.0.Err? ==> r.1 == g && r.0.error == if WorkOrder(workOrder) !in g.index then WorkOrderMissing else PeriodMissing
    ensures r.0.Ok? ==>
      && r.0.value == |g.hyperedges|
      && r.1.nodes == g.nodes && r.1.index == g.index
      && r.1.hyperedges == g.hyperedges + [HyperEdge(Exclude, ExclusionEdgeNodes(g, workOrder, period))]
    ensures Aligned(r.1)
    ensures Valid(g) ==> Valid(r.1)
  {
    if WorkOrder(workOrder) !in g.index then (Err(WorkOrderMissing), g)
    else if Period(period) !in g.index then (Err(PeriodMissing), g)
    else
      var ns := ExclusionEdgeNodes(g, workOrder, period);
      AddEdgeValid(g, Exclude, ns);
      var r := AddEdge(g, Exclude, ns);
      (Ok(r.0), r.1)
  }

  /** The exclusion window depends on the day index alone. */
  lemma {:induction false} IndexedDatesSameIndex(g: ScheduleGraph, h: ScheduleGraph, start: E.Date, count: nat)
    requires g.index == h.index
    ensures IndexedDates(g, start, count) == IndexedDates(h, start, count)
    decreases count
  {
    if count > 0 {
      IndexedDatesSameIndex(g, h, start, count - 1);
    }
  }

  /** Graphs with the same nodes and index give the same exclusion node list. */
  lemma ExclusionEdgeNodesSameIndex(g: ScheduleGraph, h: ScheduleGraph, workOrder: W.WorkOrderNumber, period: E.Period)
    requires Aligned(g) && Aligned(h) && g.nodes == h.nodes && g.index == h.index
    requires WorkOrder(workOrder) in g.index && Period(period) in g.index
    ensures ExclusionEdgeNodes(g, workOrder, period) == ExclusionEdgeNodes(h, workOrder, period)
  {
    IndexedDatesSameIndex(g, h, period.startDate, E.PeriodLength);
    assert PeriodDayHandles(g, period) == PeriodDayHandles(h, period);
  }

  /**
   * Nothing stops a repeated exclusion: a second `add_exclusion` of the same
   * work order and period is accepted and appends an edge equal to the first.
   */
  lemma AddExclusionRepeatAccepted(g: ScheduleGraph, workOrder: W.WorkOrderNumber, period: E.Period)
    requires Aligned(g) && AddExclusion(g, workOrder, period).0.Ok?
    ensures var first := AddExclusion(g, workOrder, period);
      var second := AddExclusion(first.1, workOrder, period);
      && second.0.Ok? && second.0.value == first.0.value + 1
      && second.1.hyperedges[second.0.value] == first.1.hyperedges[first.0.value]
  {
    var first := AddExclusion(g, workOrder, period);
    ExclusionEdgeNodesSameIndex(g, first.1, workOrder, period);
  }

  // ------------------------------------------------- add_assignment_activity

  /** The lookup keys of a list of technician ids. */
  function TechnicianKeys(technicians: seq<TechnicianId>): seq<Node>
  {
    seq(|technicians|, i requires 0 <= i < |technicians| => Technician(technicians[i]))
  }

  /** The date is the date of some Day node, among `nodes`, that the edge lists. */
  predicate DayListed(nodes: seq<Node>, edge: HyperEdge, d: E.Date)
    requires AllBelow(edge.nodes, |nodes|)
  {
    exists j :: 0 <= j < |edge.nodes| && nodes[edge.nodes[j]] == Day(d)
  }

  /** Every requested date is the date of some Day node, among `nodes`, that the edge lists. */
  predicate CoversDays(nodes: seq<Node>, edge: HyperEdge, days: seq<E.Date>)
    requires AllBelow(edge.nodes, |nodes|)
  {
    forall i :: 0 <= i < |days| ==> DayListed(nodes, edge, days[i])
  }

  /** Some Available edge in the incidence list of technician node `h` covers every requested date. */
  predicate Covered(g: ScheduleGraph, h: NodeIndex, days: seq<E.Date>)
    requires WellFormed(g) && h < |g.nodes|
  {
    exists k :: 0 <= k < |g.incidence[h]|
      && g.hyperedges[g.incidence[h][k]].edgeType == Available
      && CoversDays(g.nodes, g.hyperedges[g.incidence[h][k]], days)
  }

  /** The technician exists and is available on every requested date. */
  predicate Ready(g: ScheduleGraph, technician: TechnicianId, days: seq<E.Date>)
    requires WellFormed(g)
  {
    Technician(technician) in g.index && Covered(g, g.index[Technician(technician)], days)
  }

  /**
   * The technician loop of `add_assignment_activity`: the fault of the first
   * technician, in the given order, that is missing (WorkerMissing) or has
   * no Available edge covering the dates (WorkerUnavailable).
   */
  function TechniciansFault(g: ScheduleGraph, technicians: seq<TechnicianId>, days: seq<E.Date>): (e: Option<ScheduleGraphError>)
    requires WellFormed(g)
    ensures e.None? <==> forall i :: 0 <= i < |technicians| ==> Ready(g, technicians[i], days)
    ensures e.Some? ==> e.value == WorkerMissing || e.value == WorkerUnavailable
    ensures e.Some? ==>
      exists i :: (&& 0 <= i < |technicians|
                   && (forall k :: 0 <= k < i ==> Ready(g, technicians[k], days))
                   && !Ready(g, technicians[i], days)
                   && e.value == if Technician(technicians[i]) in g.index then WorkerUnavailable else WorkerMissing)
    decreases |technicians|
  {
    if technicians == [] then None
    else if Technician(technicians[0]) !in g.index then Some(WorkerMissing)
    else if !Covered(g, g.index[Technician(technicians[0])], days) then Some(WorkerUnavailable)
    else
      var rest := TechniciansFault(g, technicians[1..], days);
      assert forall i :: 1 <= i < |technicians| ==> technicians[i] == technicians[1..][i - 1];
      rest
  }

  /** Node `h` is the activity numbered `number`. */
  predicate IsActivity(g: ScheduleGraph, h: NodeIndex, number: W.ActivityNumber)
    requires h < |g.nodes|
  {
    g.nodes[h].Activity? && g.nodes[h].activityNumber == number
  }

  /** Whether the edge lists the activity numbered `number`. */
  predicate ListsActivity(g: ScheduleGraph, edge: HyperEdge, number: W.ActivityNumber)
    requires AllBelow(edge.nodes, |g.nodes|)
  {
    exists j :: 0 <= j < |edge.nodes| && IsActivity(g, edge.nodes[j], number)
  }

  /** The first node of `ns`, in order, that is the activity numbered `number`. */
  function FirstActivity(g: ScheduleGraph, ns: seq<NodeIndex>, number: W.ActivityNumber): (r: Option<NodeIndex>)
    requires AllBelow(ns, |g.nodes|)
    ensures r.None? <==> forall j :: 0 <= j < |ns| ==> !IsActivity(g, ns[j], number)
    ensures r.Some? ==>
      exists j :: (&& 0 <= j < |ns| && ns[j] == r.value && IsActivity(g, ns[j], number)
                   && forall k :: 0 <= k < j ==> !IsActivity(g, ns[k], number))
    decreases |ns|
  {
    if ns == [] then None
    else if IsActivity(g, ns[0], number) then Some(ns[0])
    else
      var rest := FirstActivity(g, ns[1..], number);
      assert forall j :: 1 <= j < |ns| ==> ns[j] == ns[1..][j - 1];
      rest
  }

  /**
   * The activity search of `add_assignment_activity`: walks the listed edges
   * in order and returns, from the first one that lists the activity, the
   * first such node.
   */
  function FindActivityIn(g: ScheduleGraph, edges: seq<EdgeIndex>, number: W.ActivityNumber): (r: Option<NodeIndex>)
    requires WellFormed(g) && AllBelow(edges, |g.hyperedges|)
    ensures r.None? <==> forall k :: 0 <= k < |edges| ==> !ListsActivity(g, g.hyperedges[edges[k]], number)
    ensures r.Some? ==> r.value < |g.nodes| && IsActivity(g, r.value, number)
    ensures r.Some? ==>
      exists k :: (&& 0 <= k < |edges|
                   && (forall k' :: 0 <= k' < k ==> !ListsActivity(g, g.hyperedges[edges[k']], number))
                   && r == FirstActivity(g, g.hyperedges[edges[k]].nodes, number))
    decreases |edges|
  {
    if edges == [] then None
    else
      var first := FirstActivity(g, g.hyperedges[edges[0]].nodes, number);
      if first.Some? then first
      else
        var rest := FindActivityIn(g, edges[1..], number);
        assert forall k :: 1 <= k < |edges| ==> edges[k] == edges[1..][k - 1];
        rest
  }

  /** Every requested date has a day node. */
  predicate DaysIndexed(g: ScheduleGraph, days: seq<E.Date>)
  {
    forall i :: 0 <= i < |days| ==> Day(days[i]) in g.index
  }

  /** Every requested technician exists and is available on every requested date. */
  predicate AllReady(g: ScheduleGraph, technicians: seq<TechnicianId>, days: seq<E.Date>)
    requires WellFormed(g)
  {
    forall i :: 0 <= i < |technicians| ==> Ready(g, technicians[i], days)
  }

  /**
   * The activity node the search finds under the work order: none when the
   * work order is not indexed or no edge in its incidence list lists the
   * activity; otherwise an activity node with the requested number.
   */
  function FindActivity(g: ScheduleGraph, workOrder: W.WorkOrderNumber, activity: W.ActivityNumber): (r: Option<NodeIndex>)
    requires WellFormed(g)
    ensures r.Some? ==> WorkOrder(workOrder) in g.index && r.value < |g.nodes| && IsActivity(g, r.value, activity)
    ensures r.None? <==>
      || WorkOrder(workOrder) !in g.index
      || forall k :: 0 <= k < |g.incidence[g.index[WorkOrder(workOrder)]]| ==>
           !ListsActivity(g, g.hyperedges[g.incidence[g.index[WorkOrder(workOrder)]][k]], activity)
  {
    if WorkOrder(workOrder) !in g.index then None
    else FindActivityIn(g, g.incidence[g.index[WorkOrder(workOrder)]], activity)
  }

  /**
   * In a valid graph the search finds the activity exactly when some edge
   * made through `add_edge` lists both the work order and the activity: the
   * incidence list it walks is every such edge of the work order.
   */
  lemma FindActivityIffSharedEdge(g: ScheduleGraph, workOrder: W.WorkOrderNumber, activity: W.ActivityNumber)
    requires Valid(g) && WorkOrder(workOrder) in g.index
    ensures FindActivity(g, workOrder, activity).Some? <==>
      exists e :: && 0 <= e < |g.hyperedges| && !Bypass(g.hyperedges[e])
                  && g.index[WorkOrder(workOrder)] in g.hyperedges[e].nodes
                  && ListsActivity(g, g.hyperedges[e], activity)
  {
    var w := g.index[WorkOrder(workOrder)];
    var inc := g.incidence[w];
    if FindActivity(g, workOrder, activity).Some? {
      var k :| 0 <= k < |inc| && ListsActivity(g, g.hyperedges[inc[k]], activity);
      IncidenceSound(g, w, k);
    }
    if e :| && 0 <= e < |g.hyperedges| && !Bypass(g.hyperedges[e])
            && w in g.hyperedges[e].nodes && ListsActivity(g, g.hyperedges[e], activity) {
      IncidenceComplete(g, e, w);
      var k :| 0 <= k < |inc| && inc[k] == e;
    }
  }

  /**
   * The first check of `add_assignment_activity` that fails, if any: a
   * missing day, then the first technician that is missing or unavailable,
   * then a missing work order, a missing activity, and more technicians than
   * the activity needs people.
   */
  function AssignmentActivityRejection(g: ScheduleGraph, technicians: seq<TechnicianId>, workOrder: W.WorkOrderNumber,
                                       activity: W.ActivityNumber, days: seq<E.Date>): (e: Option<ScheduleGraphError>)
    requires WellFormed(g)
    ensures e == Some(DayMissing) <==> !DaysIndexed(g, days)
    ensures (e == Some(WorkerMissing) || e == Some(WorkerUnavailable)) <==>
      DaysIndexed(g, days) && !AllReady(g, technicians, days)
    ensures e == Some(WorkerMissing) || e == Some(WorkerUnavailable) ==> e == TechniciansFault(g, technicians, days)
    ensures e == Some(WorkOrderMissing) <==>
      DaysIndexed(g, days) && AllReady(g, technicians, days) && WorkOrder(workOrder) !in g.index
    ensures e == Some(ActivityMissing) <==>
      && DaysIndexed(g, days) && AllReady(g, technicians, days) && WorkOrder(workOrder) in g.index
      && FindActivity(g, workOrder, activity).None?
    ensures e == Some(ActivityExceedNumberOfPeople) <==>
      && DaysIndexed(g, days) && AllReady(g, technicians, days)
      && FindActivity(g, workOrder, activity).Some?
      && |technicians| > g.nodes[FindActivity(g, workOrder, activity).value].numberOfPeople
    ensures e.None? <==>
      && DaysIndexed(g, days) && AllReady(g, technicians, days)
      && FindActivity(g, workOrder, activity).Some?
      && |technicians| <= g.nodes[FindActivity(g, workOrder, activity).value].numberOfPeople
  {
    assert forall i :: 0 <= i < |days| ==> DayKeys(days)[i] == Day(days[i]);
    if LookupAll(g, DayKeys(days)).None? then Some(DayMissing)
    else if TechniciansFault(g, technicians, days).Some? then TechniciansFault(g, technicians, days)
    else if WorkOrder(workOrder) !in g.index then Some(WorkOrderMissing)
    else
      var found := FindActivity(g, workOrder, activity);
      if found.None? then Some(ActivityMissing)
      else if |technicians| > g.nodes[found.value].numberOfPeople then Some(ActivityExceedNumberOfPeople)
      else None
  }

  /** The node list of an activity assignment: the activity, the technicians in order, the days in order. */
  function AssignmentEdgeNodes(g: ScheduleGraph, technicians: seq<TechnicianId>, workOrder: W.WorkOrderNumber,
                               activity: W.ActivityNumber, days: seq<E.Date>): (ns: seq<NodeIndex>)
    requires WellFormed(g) && DaysIndexed(g, days) && AllReady(g, technicians, days)
    requires FindActivity(g, workOrder, activity).Some?
    ensures AllBelow(ns, |g.nodes|)
  {
    assert forall i :: 0 <= i < |technicians| ==> TechnicianKeys(technicians)[i] == Technician(technicians[i]);
    var ns := [FindActivity(g, workOrder, activity).value] + Handles(g, TechnicianKeys(technicians)) + Handles(g, DayKeys(days));
    AllBelowThreeBlocks(FindActivity(g, workOrder, activity).value, Handles(g, TechnicianKeys(technicians)),
                        Handles(g, DayKeys(days)), |g.nodes|);
    ns
  }

  /**
   * `add_assignment_activity`: after its checks, one `Assign` edge carrying
   * the time window and listing the activity, the technicians and the days.
   */
  function AddAssignmentActivity(g: ScheduleGraph, technicians: seq<TechnicianId>, workOrder: W.WorkOrderNumber,
                                 activity: W.ActivityNumber, days: seq<E.Date>, window: TimeWindow)
    : (r: (GraphResult<EdgeIndex>, ScheduleGraph))
    requires WellFormed(g)
    ensures r.0.Err? <==> AssignmentActivityRejection(g, technicians, workOrder, activity, days).Some?
    ensures r.0.Err? ==>
      r.0.error == AssignmentActivityRejection(g, technicians, workOrder, activity, days).value && r.1 == g
    ensures r.0.Ok? ==>
      && r.0.value == |g.hyperedges|
      && r.1.nodes == g.nodes && r.1.index == g.index
      && r.1.hyperedges == g.hyperedges
           + [HyperEdge(Assign(Some(window)), AssignmentEdgeNodes(g, technicians, workOrder, activity, days))]
    ensures Aligned(r.1)
    ensures Valid(g) ==> Valid(r.1)
  {
    match AssignmentActivityRejection(g, technicians, workOrder, activity, days)
    case Some(e) => (Err(e), g)
    case None =>
      var ns := AssignmentEdgeNodes(g, technicians, workOrder, activity, days);
      AddEdgeValid(g, Assign(Some(window)), ns);
      (Ok(|g.hyperedges|), AddEdge(g, Assign(Some(window)), ns).1)
  }
}
