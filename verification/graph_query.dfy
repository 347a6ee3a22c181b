/**
 * `find_all_assignments_for_period`: the assignment edges that belong to a
 * period. An assignment belongs to the period once for every node it lists
 * that is the period's node or a day node inside the period's window.
 *
 * The query is defined for any window length `span`. The source compares
 * each day against the period's start plus thirteen days with a strict
 * `<`, so its window has thirteen days, one fewer than the fourteen days a
 * period is made of; `FindAllAssignmentsForPeriod` is that query as
 * written and `AssignmentsForPeriod` the query over the whole period.
 */
module GraphQuery {
  import opened Results
  import opened Sequences
  import opened GraphState
  import opened GraphInvariants
  import opened GraphOps
  import opened GraphEdges
  import E = Environment
  import W = WorkOrders

  /** Window length, in days, of the day comparison in the source. */
  const SourceWindow: nat := 13

  /**
   * Whether node `m` places an assignment in period `p` when days count up to
   * `span` days from its start: it is the period's node, or the node of one
   * of the first `span` dates of the period.
   */
  predicate Marks(m: Node, p: E.Period, span: nat)
  {
    match m
    case Period(q) => q == p
    case Day(d) => p.startDate <= d < p.startDate + span
    case _ => false
  }

  /** A node marks the period over `span` days exactly when it is the period's node or the node of one of the period's first `span` dates. */
  lemma MarksIffPeriodOrDate(m: Node, p: E.Period, span: nat)
    ensures Marks(m, p, span) <==> m == Period(p) || (m.Day? && m.date in DateRange(p.startDate, span))
  {
  }

  /** How many of the listed nodes place an assignment in period `p`. */
  function MarkCount(g: ScheduleGraph, ns: seq<NodeIndex>, p: E.Period, span: nat): (c: nat)
    requires AllBelow(ns, |g.nodes|)
    ensures c <= |ns|
    ensures c > 0 <==> exists j :: 0 <= j < |ns| && Marks(g.nodes[ns[j]], p, span)
    decreases |ns|
  {
    if ns == [] then 0
    else
      var rest := MarkCount(g, ns[1..], p, span);
      assert forall j :: 1 <= j < |ns| ==> ns[j] == ns[1..][j - 1];
      (if Marks(g.nodes[ns[0]], p, span) then 1 else 0) + rest
  }

  /** How many times the query reports edge `e`: once per marking node when it is an assignment edge. */
  function Reported(g: ScheduleGraph, p: E.Period, span: nat, e: EdgeIndex): (c: nat)
    requires WellFormed(g)
    ensures c > 0 <==>
      && e < |g.hyperedges| && g.hyperedges[e].edgeType.Assign?
      && exists j :: 0 <= j < |g.hyperedges[e].nodes| && Marks(g.nodes[g.hyperedges[e].nodes[j]], p, span)
  {
    if e < |g.hyperedges| && g.hyperedges[e].edgeType.Assign? then MarkCount(g, g.hyperedges[e].nodes, p, span) else 0
  }

  /** What edge `e` contributes to the query's output: itself once per marking node when it is an assignment edge. */
  function Block(g: ScheduleGraph, p: E.Period, span: nat, e: EdgeIndex): seq<EdgeIndex>
    requires WellFormed(g) && e < |g.hyperedges|
  {
    if g.hyperedges[e].edgeType.Assign? then Repeat<EdgeIndex>(e, MarkCount(g, g.hyperedges[e].nodes, p, span)) else []
  }

  /** Edge `e`'s block holds `e` as often as `Reported` says, and no other edge. */
  lemma BlockCount(g: ScheduleGraph, p: E.Period, span: nat, e: EdgeIndex, f: EdgeIndex)
    requires WellFormed(g) && e < |g.hyperedges|
    ensures Count(Block(g, p, span, e), f) == if f == e then Reported(g, p, span, f) else 0
  {
    if g.hyperedges[e].edgeType.Assign? {
      CountRepeat<EdgeIndex>(e, MarkCount(g, g.hyperedges[e].nodes, p, span), f);
    }
  }

  /** Appending the block of edge `last` to the output over the edges before it adds exactly that block's count. */
  lemma CountThroughBlock(before: seq<EdgeIndex>, block: seq<EdgeIndex>, last: nat, e: EdgeIndex, w: nat)
    requires Count(before, e) == if e < last then w else 0
    requires Count(block, e) == if e == last then w else 0
    ensures Count(before + block, e) == if e <= last then w else 0
  {
    CountAppend<EdgeIndex>(before, block, e);
  }

  /** The query's output over the first `k` edges, the blocks of those edges in edge order. */
  function AssignmentsUpTo(g: ScheduleGraph, p: E.Period, span: nat, k: nat): seq<EdgeIndex>
    requires WellFormed(g) && k <= |g.hyperedges|
  {
    if k == 0 then [] else AssignmentsUpTo(g, p, span, k - 1) + Block(g, p, span, k - 1)
  }

  /** How often edge `e` is reported: as often as `Reported` says when it is among the first `k` edges, otherwise never. */
  lemma {:induction false} AssignmentsUpToCount(g: ScheduleGraph, p: E.Period, span: nat, k: nat, e: EdgeIndex)
    requires WellFormed(g) && k <= |g.hyperedges|
    ensures Count(AssignmentsUpTo(g, p, span, k), e) == if e < k then Reported(g, p, span, e) else 0
  {
    if k > 0 {
      AssignmentsUpToCount(g, p, span, k - 1, e);
      BlockCount(g, p, span, k - 1, e);
      CountThroughBlock(AssignmentsUpTo(g, p, span, k - 1), Block(g, p, span, k - 1), k - 1, e, Reported(g, p, span, e));
    }
  }

  /** The query's output is in edge order and names only existing edges. */
  lemma {:induction false} AssignmentsUpToOrdered(g: ScheduleGraph, p: E.Period, span: nat, k: nat)
    requires WellFormed(g) && k <= |g.hyperedges|
    ensures AllBelow(AssignmentsUpTo(g, p, span, k), k)
    ensures NonDecreasing(AssignmentsUpTo(g, p, span, k))
  {
    if k > 0 {
      AssignmentsUpToOrdered(g, p, span, k - 1);
      var block := Block(g, p, span, k - 1);
      assert forall i :: 0 <= i < |block| ==> block[i] == k - 1;
      AppendBlockOrdered(AssignmentsUpTo(g, p, span, k - 1), block, k - 1);
    }
  }

  /**
   * The query with a window of `span` days: PeriodMissing when no node is
   * the period (the source scans the node list, not the index); otherwise
   * every assignment edge, in edge order, once for each of its nodes that is
   * the period or a day in the window.
   */
  function AssignmentsInWindow(g: ScheduleGraph, p: E.Period, span: nat): (r: GraphResult<seq<EdgeIndex>>)
    requires WellFormed(g)
    ensures r.Err? <==> Period(p) !in g.nodes
    ensures r.Err? ==> r.error == PeriodMissing
    ensures r.Ok? ==> NonDecreasing(r.value) && AllBelow(r.value, |g.hyperedges|)
    ensures r.Ok? ==> forall e: EdgeIndex :: Count(r.value, e) == Reported(g, p, span, e)
    ensures r.Ok? ==> forall e: EdgeIndex :: e in r.value <==> Reported(g, p, span, e) > 0
  {
    if Period(p) !in g.nodes then Err(PeriodMissing)
    else
      var out := AssignmentsUpTo(g, p, span, |g.hyperedges|);
      AssignmentsUpToOrdered(g, p, span, |g.hyperedges|);
      assert forall e: EdgeIndex :: Count(out, e) == Reported(g, p, span, e) by {
        forall e: EdgeIndex
          ensures Count(out, e) == Reported(g, p, span, e)
        {
          AssignmentsUpToCount(g, p, span, |g.hyperedges|, e);
        }
      }
      Ok(out)
  }

  /** `find_all_assignments_for_period` as written: days count only up to twelve days after the start. */
  function FindAllAssignmentsForPeriod(g: ScheduleGraph, p: E.Period): (r: GraphResult<seq<EdgeIndex>>)
    requires WellFormed(g)
    ensures r.Err? <==> Period(p) !in g.nodes
    ensures r.Err? ==> r.error == PeriodMissing
    ensures r.Ok? ==> NonDecreasing(r.value)
    ensures r.Ok? ==> forall e: EdgeIndex :: Count(r.value, e) == Reported(g, p, SourceWindow, e)
    ensures r.Ok? ==> forall e: EdgeIndex :: e in r.value <==>
      && e < |g.hyperedges| && g.hyperedges[e].edgeType.Assign?
      && exists j :: 0 <= j < |g.hyperedges[e].nodes| && Marks(g.nodes[g.hyperedges[e].nodes[j]], p, SourceWindow)
  {
    AssignmentsInWindow(g, p, SourceWindow)
  }

  /** The query over the whole period: every one of its fourteen days counts. */
  function AssignmentsForPeriod(g: ScheduleGraph, p: E.Period): (r: GraphResult<seq<EdgeIndex>>)
    requires WellFormed(g)
    ensures r.Err? <==> Period(p) !in g.nodes
    ensures r.Err? ==> r.error == PeriodMissing
    ensures r.Ok? ==> NonDecreasing(r.value)
    ensures r.Ok? ==> forall e: EdgeIndex :: Count(r.value, e) == Reported(g, p, E.PeriodLength, e)
    ensures r.Ok? ==> forall e: EdgeIndex :: e in r.value <==>
      && e < |g.hyperedges| && g.hyperedges[e].edgeType.Assign?
      && exists j :: 0 <= j < |g.hyperedges[e].nodes| && Marks(g.nodes[g.hyperedges[e].nodes[j]], p, E.PeriodLength)
  {
    AssignmentsInWindow(g, p, E.PeriodLength)
  }

  // ------------------------------------------------------------ properties

  /** In a valid graph the query fails exactly when the period has no node, which the index records. */
  lemma QueryFailsIffPeriodUnindexed(g: ScheduleGraph, p: E.Period)
    requires Valid(g)
    ensures FindAllAssignmentsForPeriod(g, p).Err? <==> Period(p) !in g.index
    ensures AssignmentsForPeriod(g, p).Err? <==> Period(p) !in g.index
  {
    IndexedIffPresent(g, Period(p));
  }

  /**
   * A work-order assignment made in a valid graph is reported exactly once
   * for its period: its edge lists the worker, the work order and the period,
   * and only the period node marks it.
   */
  lemma AssignedWorkOrderReportedOnce(g: ScheduleGraph, worker: TechnicianId, workOrder: W.WorkOrderNumber, p: E.Period)
    requires Valid(g)
    requires AddAssignmentWorkOrder(g, worker, workOrder, p).0.Ok?
    ensures var r := AddAssignmentWorkOrder(g, worker, workOrder, p);
      && FindAllAssignmentsForPeriod(r.1, p).Ok?
      && Count(FindAllAssignmentsForPeriod(r.1, p).value, r.0.value) == 1
  {
    var r := AddAssignmentWorkOrder(g, worker, workOrder, p);
    var ns := r.1.hyperedges[r.0.value].nodes;
    assert r.1.nodes[ns[0]] == Technician(worker);
    assert r.1.nodes[ns[1]] == WorkOrder(workOrder);
    assert r.1.nodes[ns[2]] == Period(p);
    assert MarkCount(r.1, ns[2..], p, SourceWindow) == 1 by {
      assert ns[2..][1..] == [];
    }
    assert MarkCount(r.1, ns[1..], p, SourceWindow) == 1 by {
      assert ns[1..][1..] == ns[2..];
    }
  }

  /**
   * The query as written misses an assignment edge that lists the period's
   * last day and nothing else that marks the period within thirteen days,
   * while the whole-period query reports it.
   */
  lemma LastDayMissed(g: ScheduleGraph, p: E.Period, e: EdgeIndex, j: nat)
    requires WellFormed(g) && Period(p) in g.nodes && e < |g.hyperedges|
    requires g.hyperedges[e].edgeType.Assign? && j < |g.hyperedges[e].nodes|
    requires g.nodes[g.hyperedges[e].nodes[j]] == Day(p.startDate + E.PeriodLength - 1)
    requires forall k :: 0 <= k < |g.hyperedges[e].nodes| ==> !Marks(g.nodes[g.hyperedges[e].nodes[k]], p, SourceWindow)
    ensures e !in FindAllAssignmentsForPeriod(g, p).value
    ensures e in AssignmentsForPeriod(g, p).value
  {
    assert Marks(g.nodes[g.hyperedges[e].nodes[j]], p, E.PeriodLength);
  }

  /**
   * A smallest valid graph showing the discrepancy: a period node and its
   * last day, with one activity assignment whose only node is that day.
   */
  const LastDayExample: ScheduleGraph := ScheduleGraph(
    [Period(E.FromStartDate(0)), Day(13)],
    [HyperEdge(Assign(Some(TimeWindow(0, 0))), [1])],
    [[], [0]],
    map[Period(E.FromStartDate(0)) := 0, Day(13) := 1])

  /** The example graph is one the operations can keep valid. */
  lemma LastDayExampleValid()
    ensures Valid(LastDayExample)
  {
    var g := LastDayExample;
    assert IndexCoherent(g) by {
      forall m | m in g.index
        ensures g.index[m] < |g.nodes| && g.nodes[g.index[m]] == m
      {
        assert m == Period(E.FromStartDate(0)) || m == Day(13);
      }
    }
    assert g.hyperedges[..0] == [];
    assert g.incidence[0] == IncidenceOf(g.hyperedges, 0);
    assert g.incidence[1] == IncidenceOf(g.hyperedges, 1);
  }

  /** A concrete valid graph on which the query as written and the whole-period query disagree. */
  lemma LastDayExampleDisagrees()
    ensures Valid(LastDayExample)
    ensures FindAllAssignmentsForPeriod(LastDayExample, E.FromStartDate(0)).Ok?
    ensures 0 !in FindAllAssignmentsForPeriod(LastDayExample, E.FromStartDate(0)).value
    ensures 0 in AssignmentsForPeriod(LastDayExample, E.FromStartDate(0)).value
  {
    LastDayExampleValid();
    assert LastDayExample.nodes[0] == Period(E.FromStartDate(0));
    LastDayMissed(LastDayExample, E.FromStartDate(0), 0, 0);
  }

  /**
   * A node list made of two handles and a block of day handles: when the
   * second handle is the period's node and every day lies in the period, every
   * node after the first marks the period over its fourteen days.
   */
  lemma PeriodBlockMarks(nodes: seq<Node>, a: NodeIndex, b: NodeIndex, hs: seq<NodeIndex>, dates: seq<E.Date>, p: E.Period)
    requires b < |nodes| && nodes[b] == Period(p)
    requires |hs| == |dates| && forall k :: 0 <= k < |hs| ==> hs[k] < |nodes| && nodes[hs[k]] == Day(dates[k])
    requires forall k :: 0 <= k < |dates| ==> p.startDate <= dates[k] < p.startDate + E.PeriodLength
    ensures forall k :: 1 <= k < |[a] + [b] + hs| ==> ([a] + [b] + hs)[k] < |nodes| && Marks(nodes[([a] + [b] + hs)[k]], p, E.PeriodLength)
  {
    var ns := [a] + [b] + hs;
    forall k | 1 <= k < |ns|
      ensures ns[k] < |nodes| && Marks(nodes[ns[k]], p, E.PeriodLength)
    {
      if k >= 2 {
        assert ns[k] == hs[k - 2];
      }
    }
  }

  /** With a coherent index, the handles of indexed dates are their day nodes. */
  lemma DayHandlesResolve(g: ScheduleGraph, dates: seq<E.Date>)
    requires Aligned(g) && IndexCoherent(g) && forall k :: 0 <= k < |dates| ==> Day(dates[k]) in g.index
    ensures forall k :: 0 <= k < |dates| ==>
      Handles(g, DayKeys(dates))[k] < |g.nodes| && g.nodes[Handles(g, DayKeys(dates))[k]] == Day(dates[k])
  {
  }

  /** Every node of the exclusion node list after the work order marks the period over its fourteen days. */
  lemma ExclusionNodesMark(g: ScheduleGraph, workOrder: W.WorkOrderNumber, p: E.Period)
    requires Aligned(g) && IndexCoherent(g) && WorkOrder(workOrder) in g.index && Period(p) in g.index
    ensures var ns := ExclusionEdgeNodes(g, workOrder, p);
      && |ns| >= 2 && AllBelow(ns, |g.nodes|) && g.nodes[ns[0]] == WorkOrder(workOrder)
      && forall k :: 1 <= k < |ns| ==> Marks(g.nodes[ns[k]], p, E.PeriodLength)
  {
    var dates := IndexedDates(g, p.startDate, E.PeriodLength);
    DayHandlesResolve(g, dates);
    PeriodBlockMarks(g.nodes, g.index[WorkOrder(workOrder)], g.index[Period(p)], PeriodDayHandles(g, p), dates, p);
  }

  /**
   * Every node after the work order on the edge `add_exclusion` appends, the
   * period and each of its day nodes, is one the whole-period query counts.
   */
  lemma ExclusionDaysCounted(g: ScheduleGraph, workOrder: W.WorkOrderNumber, p: E.Period)
    requires Valid(g) && AddExclusion(g, workOrder, p).0.Ok?
    ensures var r := AddExclusion(g, workOrder, p);
      var ns := r.1.hyperedges[r.0.value].nodes;
      && |ns| >= 2 && r.1.nodes[ns[0]] == WorkOrder(workOrder)
      && forall k :: 1 <= k < |ns| ==> Marks(r.1.nodes[ns[k]], p, E.PeriodLength)
  {
    ExclusionNodesMark(g, workOrder, p);
    var r := AddExclusion(g, workOrder, p);
    assert r.1.nodes == g.nodes;
    assert r.1.hyperedges[r.0.value].nodes == ExclusionEdgeNodes(g, workOrder, p);
  }

  /** When the period's last day is indexed, it is the date at position `i` of the exclusion window. */
  lemma LastDayPosition(g: ScheduleGraph, p: E.Period) returns (i: nat)
    requires Day(p.startDate + E.PeriodLength - 1) in g.index
    ensures i < |IndexedDates(g, p.startDate, E.PeriodLength)|
    ensures IndexedDates(g, p.startDate, E.PeriodLength)[i] == p.startDate + E.PeriodLength - 1
  {
    var dates := IndexedDates(g, p.startDate, E.PeriodLength);
    assert p.startDate + E.PeriodLength - 1 in dates;
    i :| 0 <= i < |dates| && dates[i] == p.startDate + E.PeriodLength - 1;
  }

  /** Position `2 + i` of the exclusion node list is the handle of the `i`-th date of the exclusion window. */
  lemma ExclusionNodeAt(g: ScheduleGraph, workOrder: W.WorkOrderNumber, p: E.Period, i: nat)
    requires Aligned(g) && WorkOrder(workOrder) in g.index && Period(p) in g.index
    requires i < |PeriodDayHandles(g, p)|
    ensures 2 + i < |ExclusionEdgeNodes(g, workOrder, p)|
    ensures ExclusionEdgeNodes(g, workOrder, p)[2 + i] == PeriodDayHandles(g, p)[i]
  {
    ThreeBlocks(g.index[WorkOrder(workOrder)], [g.index[Period(p)]], PeriodDayHandles(g, p));
  }

  /** With a coherent index, each handle of the exclusion window is the node of the date at the same position. */
  lemma PeriodDayHandlesResolve(g: ScheduleGraph, p: E.Period)
    requires Aligned(g) && IndexCoherent(g)
    ensures forall k :: 0 <= k < |PeriodDayHandles(g, p)| ==>
      PeriodDayHandles(g, p)[k] < |g.nodes| && g.nodes[PeriodDayHandles(g, p)[k]] == Day(IndexedDates(g, p.startDate, E.PeriodLength)[k])
  {
    DayHandlesResolve(g, IndexedDates(g, p.startDate, E.PeriodLength));
  }

  /** The handle at the last day's position in the exclusion window is the last day's node. */
  lemma LastDayHandleResolves(g: ScheduleGraph, p: E.Period, i: nat)
    requires Aligned(g) && IndexCoherent(g)
    requires i < |IndexedDates(g, p.startDate, E.PeriodLength)|
    requires IndexedDates(g, p.startDate, E.PeriodLength)[i] == p.startDate + E.PeriodLength - 1
    ensures i < |PeriodDayHandles(g, p)|
    ensures g.nodes[PeriodDayHandles(g, p)[i]] == Day(p.startDate + E.PeriodLength - 1)
  {
    PeriodDayHandlesResolve(g, p);
  }

  /** When the period's last day is indexed, the exclusion node list lists its node, at position `k`. */
  lemma ExclusionListsLastDay(g: ScheduleGraph, workOrder: W.WorkOrderNumber, p: E.Period) returns (k: nat)
    requires Aligned(g) && IndexCoherent(g) && WorkOrder(workOrder) in g.index && Period(p) in g.index
    requires Day(p.startDate + E.PeriodLength - 1) in g.index
    ensures var ns := ExclusionEdgeNodes(g, workOrder, p);
      k < |ns| && g.nodes[ns[k]] == Day(p.startDate + E.PeriodLength - 1)
  {
    var i := LastDayPosition(g, p);
    LastDayHandleResolves(g, p, i);
    ExclusionNodeAt(g, workOrder, p, i);
    k := 2 + i;
  }

  /**
   * When the period's last day has a node, the edge `add_exclusion` appends
   * lists it, and the query as written does not count it.
   */
  lemma ExclusionLastDayNotCounted(g: ScheduleGraph, workOrder: W.WorkOrderNumber, p: E.Period)
    requires Valid(g) && AddExclusion(g, workOrder, p).0.Ok?
    requires Day(p.startDate + E.PeriodLength - 1) in g.index
    ensures var r := AddExclusion(g, workOrder, p);
      var ns := r.1.hyperedges[r.0.value].nodes;
      exists k :: && 0 <= k < |ns| && r.1.nodes[ns[k]] == Day(p.startDate + E.PeriodLength - 1)
                  && !Marks(r.1.nodes[ns[k]], p, SourceWindow)
  {
    var k := ExclusionListsLastDay(g, workOrder, p);
    var r := AddExclusion(g, workOrder, p);
    assert r.1.nodes == g.nodes;
    assert r.1.hyperedges[r.0.value].nodes == ExclusionEdgeNodes(g, workOrder, p);
    assert !Marks(Day(p.startDate + E.PeriodLength - 1), p, SourceWindow);
    assert r.1.nodes[r.1.hyperedges[r.0.value].nodes[k]] == Day(p.startDate + E.PeriodLength - 1);
  }
}
