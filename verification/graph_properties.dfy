/**
 * What the edges the operations create mean once read back through the
 * graph: the nodes an edge lists resolve to the keys the operation was given,
 * and a technician added with an availability window is available, for
 * `add_assignment_activity`, on every date of that window.
 */
module GraphProperties {
  import opened Results
  import opened Sequences
  import opened GraphState
  import opened GraphInvariants
  import opened GraphOps
  import opened GraphEdges
  import Q = GraphQuery
  import E = Environment
  import T = Technicians
  import W = WorkOrders

  /** A node list made of one handle and two blocks of handles resolves, block by block, to the keys the blocks resolve to. */
  lemma BlocksResolve(nodes: seq<Node>, x: NodeIndex, hs: seq<NodeIndex>, first: seq<Node>, hd: seq<NodeIndex>, second: seq<Node>)
    requires |hs| == |first| && forall i :: 0 <= i < |hs| ==> hs[i] < |nodes| && nodes[hs[i]] == first[i]
    requires |hd| == |second| && forall i :: 0 <= i < |hd| ==> hd[i] < |nodes| && nodes[hd[i]] == second[i]
    ensures var ns := [x] + hs + hd;
      && |ns| == 1 + |first| + |second|
      && ns[0] == x
      && (forall i :: 0 <= i < |first| ==> ns[1 + i] < |nodes| && nodes[ns[1 + i]] == first[i])
      && (forall i :: 0 <= i < |second| ==> ns[1 + |first| + i] < |nodes| && nodes[ns[1 + |first| + i]] == second[i])
  {
    ThreeBlocks(x, hs, hd);
  }

  /**
   * In a valid graph the node list of an Available edge is the next node's
   * handle, then the nodes of the technician's skills in ascending order,
   * then the nodes of the window's dates in date order.
   */
  lemma AvailableNodesResolve(g: ScheduleGraph, t: T.Technician, a: T.Availability)
    requires Valid(g)
    requires LookupAll(g, SkillKeys(T.Skills(t))).Some? && LookupAll(g, DayKeys(AvailabilityDates(a))).Some?
    ensures var ns := AvailableEdgeNodes(g, t, a);
      var skills := T.Skills(t);
      var dates := AvailabilityDates(a);
      && |ns| == 1 + |skills| + |dates|
      && ns[0] == |g.nodes|
      && (forall i :: 0 <= i < |skills| ==> ns[1 + i] < |g.nodes| && g.nodes[ns[1 + i]] == Skill(skills[i]))
      && (forall i :: 0 <= i < |dates| ==> ns[1 + |skills| + i] < |g.nodes| && g.nodes[ns[1 + |skills| + i]] == Day(dates[i]))
  {
    var skills := T.Skills(t);
    var dates := AvailabilityDates(a);
    assert forall i :: 0 <= i < |skills| ==> SkillKeys(skills)[i] == Skill(skills[i]);
    assert forall i :: 0 <= i < |dates| ==> DayKeys(dates)[i] == Day(dates[i]);
    HandlesResolve(g, SkillKeys(skills));
    HandlesResolve(g, DayKeys(dates));
    BlocksResolve(g.nodes, |g.nodes|, Handles(g, SkillKeys(skills)), SkillKeys(skills), Handles(g, DayKeys(dates)), DayKeys(dates));
  }

  /**
   * The Available node list also resolves in the graph extended by the
   * technician node: the first handle to the technician, the rest as in the
   * graph before.
   */
  lemma AvailableNodesResolveAfterAdd(g: ScheduleGraph, t: T.Technician, a: T.Availability)
    requires Valid(g)
    requires LookupAll(g, SkillKeys(T.Skills(t))).Some? && LookupAll(g, DayKeys(AvailabilityDates(a))).Some?
    ensures var ns := AvailableEdgeNodes(g, t, a);
      var nodes := g.nodes + [Technician(t.technicianId)];
      var skills := T.Skills(t);
      var dates := AvailabilityDates(a);
      && |ns| == 1 + |skills| + |dates|
      && ns[0] < |nodes| && nodes[ns[0]] == Technician(t.technicianId)
      && (forall i :: 0 <= i < |skills| ==> ns[1 + i] < |nodes| && nodes[ns[1 + i]] == Skill(skills[i]))
      && (forall i :: 0 <= i < |dates| ==> ns[1 + |skills| + i] < |nodes| && nodes[ns[1 + |skills| + i]] == Day(dates[i]))
  {
    AvailableNodesResolve(g, t, a);
  }

  /**
   * The Available edge `add_technician` creates in a valid graph lists the
   * new technician node, then the node of each of its skills in ascending
   * order, then the node of each date of the window in date order.
   */
  lemma AvailableEdgeResolves(g: ScheduleGraph, t: T.Technician, a: T.Availability)
    requires Valid(g) && AddTechnician(g, t, a).0.Ok?
    ensures var r := AddTechnician(g, t, a);
      var edge := r.1.hyperedges[r.0.value];
      var skills := T.Skills(t);
      var dates := AvailabilityDates(a);
      && edge.edgeType == Available
      && |edge.nodes| == 1 + |skills| + |dates|
      && r.1.nodes[edge.nodes[0]] == Technician(t.technicianId)
      && (forall i :: 0 <= i < |skills| ==> r.1.nodes[edge.nodes[1 + i]] == Skill(skills[i]))
      && (forall i :: 0 <= i < |dates| ==> r.1.nodes[edge.nodes[1 + |skills| + i]] == Day(dates[i]))
  {
    var r := AddTechnician(g, t, a);
    assert LookupAll(g, SkillKeys(T.Skills(t))).Some? && LookupAll(g, DayKeys(AvailabilityDates(a))).Some? by {
      LookupSkillsIff(g, t);
      LookupDaysIff(g, AvailabilityDates(a));
    }
    AvailableNodesResolveAfterAdd(g, t, a);
    assert r.1.hyperedges[r.0.value].nodes == AvailableEdgeNodes(g, t, a);
    assert r.1.nodes == g.nodes + [Technician(t.technicianId)];
  }

  /** The technician's incidence list names the Available edge `add_technician` creates in a valid graph. */
  lemma AvailableEdgeIncident(g: ScheduleGraph, t: T.Technician, a: T.Availability)
    requires Valid(g) && AddTechnician(g, t, a).0.Ok?
    ensures var r := AddTechnician(g, t, a);
      r.0.value in r.1.incidence[r.1.index[Technician(t.technicianId)]]
  {
    var r := AddTechnician(g, t, a);
    LookupSkillsIff(g, t);
    LookupDaysIff(g, AvailabilityDates(a));
    var ns := AvailableEdgeNodes(g, t, a);
    assert r.1.hyperedges[r.0.value] == HyperEdge(Available, ns);
    assert Valid(r.1) && ns[0] == |g.nodes| < |r.1.nodes|;
    IncidenceComplete(r.1, r.0.value, |g.nodes|);
  }

  /** An edge whose Day block lists every date of `dates` covers any dates drawn from `dates`. */
  lemma DayBlockCovers(nodes: seq<Node>, edge: HyperEdge, offset: nat, dates: seq<E.Date>, days: seq<E.Date>)
    requires AllBelow(edge.nodes, |nodes|) && |edge.nodes| == offset + |dates|
    requires forall i :: 0 <= i < |dates| ==> nodes[edge.nodes[offset + i]] == Day(dates[i])
    requires forall i :: 0 <= i < |days| ==> days[i] in dates
    ensures CoversDays(nodes, edge, days)
  {
    forall i | 0 <= i < |days|
      ensures DayListed(nodes, edge, days[i])
    {
      var m := IndexOf(dates, days[i]);
      assert nodes[edge.nodes[offset + m]] == Day(days[i]);
    }
  }

  /** An edge that covers `dates` covers any dates drawn from `dates`. */
  lemma CoversSubset(nodes: seq<Node>, edge: HyperEdge, dates: seq<E.Date>, days: seq<E.Date>)
    requires AllBelow(edge.nodes, |nodes|) && CoversDays(nodes, edge, dates)
    requires forall i :: 0 <= i < |days| ==> days[i] in dates
    ensures CoversDays(nodes, edge, days)
  {
    forall i | 0 <= i < |days|
      ensures DayListed(nodes, edge, days[i])
    {
      var m := IndexOf(dates, days[i]);
      assert DayListed(nodes, edge, dates[m]);
    }
  }

  /** An Available edge in node `h`'s incidence list that covers the dates makes `h` covered. */
  lemma IncidentEdgeCovers(g: ScheduleGraph, h: NodeIndex, e: EdgeIndex, days: seq<E.Date>)
    requires WellFormed(g) && h < |g.nodes| && e in g.incidence[h]
    requires g.hyperedges[e].edgeType == Available && CoversDays(g.nodes, g.hyperedges[e], days)
    ensures Covered(g, h, days)
  {
    var k := IndexOf(g.incidence[h], e);
    assert g.hyperedges[g.incidence[h][k]] == g.hyperedges[e];
  }

  /**
   * Once the technician node is appended, the Available node list covers
   * every date of the window.
   */
  lemma AvailableNodesCoverWindow(g: ScheduleGraph, t: T.Technician, a: T.Availability)
    requires Valid(g)
    requires LookupAll(g, SkillKeys(T.Skills(t))).Some? && LookupAll(g, DayKeys(AvailabilityDates(a))).Some?
    ensures AllBelow(AvailableEdgeNodes(g, t, a), |g.nodes| + 1)
    ensures CoversDays(g.nodes + [Technician(t.technicianId)], HyperEdge(Available, AvailableEdgeNodes(g, t, a)), AvailabilityDates(a))
  {
    var nodes := g.nodes + [Technician(t.technicianId)];
    var dates := AvailabilityDates(a);
    AvailableNodesResolveAfterAdd(g, t, a);
    DayBlockCovers(nodes, HyperEdge(Available, AvailableEdgeNodes(g, t, a)), 1 + |T.Skills(t)|, dates, dates);
  }

  /** The Available edge `add_technician` creates sits in the technician's incidence list and covers every date of the window. */
  lemma AvailableEdgeCoversWindow(g: ScheduleGraph, t: T.Technician, a: T.Availability)
    requires Valid(g) && AddTechnician(g, t, a).0.Ok?
    ensures var r := AddTechnician(g, t, a);
      var e := r.0.value;
      && WellFormed(r.1) && Technician(t.technicianId) in r.1.index && e < |r.1.hyperedges|
      && e in r.1.incidence[r.1.index[Technician(t.technicianId)]]
      && r.1.hyperedges[e].edgeType == Available
      && CoversDays(r.1.nodes, r.1.hyperedges[e], AvailabilityDates(a))
  {
    var r := AddTechnician(g, t, a);
    assert LookupAll(g, SkillKeys(T.Skills(t))).Some? && LookupAll(g, DayKeys(AvailabilityDates(a))).Some? by {
      LookupSkillsIff(g, t);
      LookupDaysIff(g, AvailabilityDates(a));
    }
    AvailableNodesCoverWindow(g, t, a);
    AvailableEdgeIncident(g, t, a);
    assert r.1.hyperedges[r.0.value] == HyperEdge(Available, AvailableEdgeNodes(g, t, a));
    assert r.1.nodes == g.nodes + [Technician(t.technicianId)];
  }

  /**
   * After `add_technician` succeeds in a valid graph, the technician passes
   * the availability check of `add_assignment_activity` for any dates inside
   * the window: the new Available edge covers them.
   */
  lemma TechnicianReadyAfterAdd(g: ScheduleGraph, t: T.Technician, a: T.Availability, days: seq<E.Date>)
    requires Valid(g) && AddTechnician(g, t, a).0.Ok?
    requires forall i :: 0 <= i < |days| ==> a.StartDate() <= days[i] <= a.FinishDate()
    ensures WellFormed(AddTechnician(g, t, a).1)
    ensures Ready(AddTechnician(g, t, a).1, t.technicianId, days)
  {
    var r := AddTechnician(g, t, a);
    var dates := AvailabilityDates(a);
    AvailableEdgeCoversWindow(g, t, a);
    assert forall i :: 0 <= i < |days| ==> days[i] in dates;
    CoversSubset(r.1.nodes, r.1.hyperedges[r.0.value], dates, days);
    IncidentEdgeCovers(r.1, r.1.index[Technician(t.technicianId)], r.0.value, days);
  }

  /** In a valid graph a node list of one handle, then the handles of two lists of indexed keys, resolves block by block to those keys. */
  lemma KeyBlocksResolve(g: ScheduleGraph, x: NodeIndex, first: seq<Node>, second: seq<Node>)
    requires Valid(g)
    requires forall i :: 0 <= i < |first| ==> first[i] in g.index
    requires forall i :: 0 <= i < |second| ==> second[i] in g.index
    ensures var ns := [x] + Handles(g, first) + Handles(g, second);
      && |ns| == 1 + |first| + |second|
      && ns[0] == x
      && (forall i :: 0 <= i < |first| ==> ns[1 + i] < |g.nodes| && g.nodes[ns[1 + i]] == first[i])
      && (forall i :: 0 <= i < |second| ==> ns[1 + |first| + i] < |g.nodes| && g.nodes[ns[1 + |first| + i]] == second[i])
  {
    HandlesResolve(g, first);
    HandlesResolve(g, second);
    BlocksResolve(g.nodes, x, Handles(g, first), first, Handles(g, second), second);
  }

  /**
   * In a valid graph the node list of an activity assignment, the activity
   * then the looked-up technicians and days, resolves to the technicians in
   * the given order, then the days in the given order.
   */
  lemma AssignmentNodesResolve(g: ScheduleGraph, x: NodeIndex, technicians: seq<TechnicianId>, days: seq<E.Date>)
    requires Valid(g) && DaysIndexed(g, days)
    requires forall i :: 0 <= i < |technicians| ==> Technician(technicians[i]) in g.index
    ensures forall i :: 0 <= i < |technicians| ==> TechnicianKeys(technicians)[i] in g.index
    ensures var ns := [x] + Handles(g, TechnicianKeys(technicians)) + Handles(g, DayKeys(days));
      && |ns| == 1 + |technicians| + |days|
      && ns[0] == x
      && (forall i :: 0 <= i < |technicians| ==> ns[1 + i] < |g.nodes| && g.nodes[ns[1 + i]] == Technician(technicians[i]))
      && (forall i :: 0 <= i < |days| ==> ns[1 + |technicians| + i] < |g.nodes| && g.nodes[ns[1 + |technicians| + i]] == Day(days[i]))
  {
    var tk := TechnicianKeys(technicians);
    var dk := DayKeys(days);
    assert forall i :: 0 <= i < |technicians| ==> tk[i] == Technician(technicians[i]);
    assert forall i :: 0 <= i < |days| ==> dk[i] == Day(days[i]);
    KeyBlocksResolve(g, x, tk, dk);
  }

  /**
   * The Assign edge `add_assignment_activity` creates in a valid graph lists
   * first the requested activity, which takes at least as many people as
   * there are technicians, then each technician's node in the given order,
   * then each requested day's node in the given order.
   */
  lemma AssignmentEdgeResolves(g: ScheduleGraph, technicians: seq<TechnicianId>, workOrder: W.WorkOrderNumber,
                               activity: W.ActivityNumber, days: seq<E.Date>, window: TimeWindow)
    requires Valid(g) && AddAssignmentActivity(g, technicians, workOrder, activity, days, window).0.Ok?
    ensures var r := AddAssignmentActivity(g, technicians, workOrder, activity, days, window);
      var edge := r.1.hyperedges[r.0.value];
      && edge.edgeType == Assign(Some(window))
      && |edge.nodes| == 1 + |technicians| + |days|
      && IsActivity(r.1, edge.nodes[0], activity)
      && |technicians| <= r.1.nodes[edge.nodes[0]].numberOfPeople
      && (forall i :: 0 <= i < |technicians| ==> r.1.nodes[edge.nodes[1 + i]] == Technician(technicians[i]))
      && (forall i :: 0 <= i < |days| ==> r.1.nodes[edge.nodes[1 + |technicians| + i]] == Day(days[i]))
  {
    var r := AddAssignmentActivity(g, technicians, workOrder, activity, days, window);
    assert forall i :: 0 <= i < |technicians| ==> Technician(technicians[i]) in g.index by {
      forall i | 0 <= i < |technicians|
        ensures Technician(technicians[i]) in g.index
      {
        assert Ready(g, technicians[i], days);
      }
    }
    var x := FindActivity(g, workOrder, activity).value;
    AssignmentNodesResolve(g, x, technicians, days);
    assert r.1.hyperedges[r.0.value].nodes == [x] + Handles(g, TechnicianKeys(technicians)) + Handles(g, DayKeys(days));
  }

  /**
   * The activity assignment edge reaches every participant: each listed
   * technician's incidence list, and each listed day's, names it.
   */
  lemma AssignmentEdgeIncident(g: ScheduleGraph, technicians: seq<TechnicianId>, workOrder: W.WorkOrderNumber,
                               activity: W.ActivityNumber, days: seq<E.Date>, window: TimeWindow, j: nat)
    requires Valid(g) && AddAssignmentActivity(g, technicians, workOrder, activity, days, window).0.Ok?
    requires var r := AddAssignmentActivity(g, technicians, workOrder, activity, days, window);
      j < |r.1.hyperedges[r.0.value].nodes|
    ensures var r := AddAssignmentActivity(g, technicians, workOrder, activity, days, window);
      r.0.value in r.1.incidence[r.1.hyperedges[r.0.value].nodes[j]]
  {
    var r := AddAssignmentActivity(g, technicians, workOrder, activity, days, window);
    IncidenceComplete(r.1, r.0.value, r.1.hyperedges[r.0.value].nodes[j]);
  }

  /**
   * In a valid graph holding the period, `add_assignment_activity` with the
   * period's last day as its only day creates an edge the query as written
   * does not report, and the whole-period query does.
   */
  lemma LastDayAssignmentMissed(g: ScheduleGraph, technicians: seq<TechnicianId>, workOrder: W.WorkOrderNumber,
                                activity: W.ActivityNumber, p: E.Period, window: TimeWindow)
    requires Valid(g) && Period(p) in g.index
    requires AddAssignmentActivity(g, technicians, workOrder, activity, [p.startDate + E.PeriodLength - 1], window).0.Ok?
    ensures var r := AddAssignmentActivity(g, technicians, workOrder, activity, [p.startDate + E.PeriodLength - 1], window);
      && r.0.value !in Q.FindAllAssignmentsForPeriod(r.1, p).value
      && r.0.value in Q.AssignmentsForPeriod(r.1, p).value
  {
    var days := [p.startDate + E.PeriodLength - 1];
    var r := AddAssignmentActivity(g, technicians, workOrder, activity, days, window);
    AssignmentEdgeResolves(g, technicians, workOrder, activity, days, window);
    IndexedIffPresent(g, Period(p));
    var ns := r.1.hyperedges[r.0.value].nodes;
    forall k | 0 <= k < |ns|
      ensures !Q.Marks(r.1.nodes[ns[k]], p, Q.SourceWindow)
    {
      if 1 <= k < 1 + |technicians| {
        assert r.1.nodes[ns[1 + (k - 1)]] == Technician(technicians[k - 1]);
      } else if k == 1 + |technicians| {
        assert r.1.nodes[ns[1 + |technicians| + 0]] == Day(days[0]);
      }
    }
    Q.LastDayMissed(r.1, p, r.0.value, 1 + |technicians|);
  }
}
