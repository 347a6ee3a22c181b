/**
 * The public construction operations of the scheduling hypergraph. Each one
 * takes the graph and returns its result together with the new graph.
 * Every fallible operation runs all its checks before its first change, so
 * an error always comes back with the graph unchanged.
 */
module GraphOps {
  import opened Results
  import opened Sequences
  import opened GraphState
  import opened GraphInvariants
  import E = Environment
  import T = Technicians
  import W = WorkOrders

  // ---------------------------------------------------------------- add_skill

  /** `add_skill`: returns the skill's node, creating it when the skill is not yet indexed. */
  function AddSkill(g: ScheduleGraph, skill: T.Skill): (r: (NodeIndex, ScheduleGraph))
    ensures Skill(skill) in g.index ==> r == (g.index[Skill(skill)], g)
    ensures Skill(skill) !in g.index ==>
      && r.0 == |g.nodes| && r.1.nodes == g.nodes + [Skill(skill)]
      && r.1.hyperedges == g.hyperedges && r.1.incidence == g.incidence + [[]]
      && r.1.index == g.index[Skill(skill) := r.0]
    ensures Aligned(g) ==> Aligned(r.1)
    ensures Valid(g) ==> Valid(r.1)
  {
    if Skill(skill) in g.index then (g.index[Skill(skill)], g)
    else
      AddNodeValid(g, Skill(skill));
      AddNode(g, Skill(skill))
  }

  /** Adding a skill twice is adding it once. */
  lemma AddSkillIdempotent(g: ScheduleGraph, skill: T.Skill)
    ensures var r := AddSkill(g, skill); AddSkill(r.1, skill) == r
  {
  }

  // --------------------------------------------------------------- add_period

  /** Whether `d` is one of the fourteen days of period `p`. */
  predicate InPeriod(p: E.Period, d: E.Date)
  {
    p.startDate <= d < p.startDate + E.PeriodLength
  }

  /** The day nodes of `count` consecutive dates from `start`. */
  function DayNodes(start: E.Date, count: nat): seq<Node>
  {
    seq(count, k => Day(start + k))
  }

  /** None of the period's days has a day node yet. */
  predicate PeriodDaysFree(g: ScheduleGraph, p: E.Period)
  {
    forall d :: p.startDate <= d < p.startDate + E.PeriodLength ==> Day(d) !in g.index
  }

  /**
   * The day loop of `add_period`: one day node per date `start .. start +
   * count - 1`, in date order, each indexed. The source re-inserts each
   * day's handle after `add_node` has recorded it, which changes nothing.
   */
  method AddDays(g: ScheduleGraph, start: E.Date, count: nat) returns (r: ScheduleGraph)
    requires forall d :: start <= d < start + count ==> Day(d) !in g.index
    ensures Aligned(g) ==> Aligned(r)
    ensures Valid(g) ==> Valid(r)
    ensures r.nodes == g.nodes + DayNodes(start, count) && r.hyperedges == g.hyperedges
    ensures r.incidence == g.incidence + Repeat<seq<EdgeIndex>>([], count)
    ensures forall m :: m in r.index <==> m in g.index || (m.Day? && start <= m.date < start + count)
    ensures forall m :: m in g.index ==> r.index[m] == g.index[m]
    ensures forall d :: start <= d < start + count ==> r.index[Day(d)] == |g.nodes| + (d - start)
  {
    r := g;
    var k := 0;
    while k < count
      invariant 0 <= k <= count
      invariant Aligned(g) ==> Aligned(r)
      invariant Valid(g) ==> Valid(r)
      invariant r.nodes == g.nodes + DayNodes(start, k) && r.hyperedges == g.hyperedges
      invariant r.incidence == g.incidence + Repeat<seq<EdgeIndex>>([], k)
      invariant forall m :: m in r.index <==> m in g.index || (m.Day? && start <= m.date < start + k)
      invariant forall m :: m in g.index ==> r.index[m] == g.index[m]
      invariant forall d :: start <= d < start + k ==> r.index[Day(d)] == |g.nodes| + (d - start)
    {
      AddNodeValid(r, Day(start + k));
      r := AddNode(r, Day(start + k)).1;
      assert DayNodes(start, k + 1) == DayNodes(start, k) + [Day(start + k)];
      assert Repeat<seq<EdgeIndex>>([], k + 1) == Repeat<seq<EdgeIndex>>([], k) + [[]];
      k := k + 1;
    }
  }

  /**
   * `add_period`: refuses a period already indexed; otherwise creates the
   * period's fourteen day nodes, then the period node, and returns the
   * period node. The source panics when one of the days already has a node;
   * that is the precondition.
   */
  method AddPeriod(g: ScheduleGraph, p: E.Period) returns (res: GraphResult<NodeIndex>, r: ScheduleGraph)
    requires Period(p) in g.index || PeriodDaysFree(g, p)
    ensures res.Err? <==> Period(p) in g.index
    ensures res.Err? ==> res.error == PeriodDuplicate && r == g
    ensures Aligned(g) ==> Aligned(r)
    ensures Valid(g) ==> Valid(r)
    ensures res.Ok? ==>
      && res.value == |g.nodes| + E.PeriodLength
      && r.nodes == g.nodes + DayNodes(p.startDate, E.PeriodLength) + [Period(p)]
      && r.hyperedges == g.hyperedges
      && r.incidence == g.incidence + Repeat<seq<EdgeIndex>>([], E.PeriodLength + 1)
    ensures res.Ok? ==> forall m :: m in r.index <==> m in g.index || m == Period(p) || (m.Day? && InPeriod(p, m.date))
    ensures res.Ok? ==> forall m :: m in g.index ==> r.index[m] == g.index[m]
    ensures res.Ok? ==> r.index[Period(p)] == res.value
    ensures res.Ok? ==> forall d :: InPeriod(p, d) ==> r.index[Day(d)] == |g.nodes| + (d - p.startDate)
  {
    if Period(p) in g.index {
      return Err(PeriodDuplicate), g;
    }
    var days := AddDays(g, p.startDate, E.PeriodLength);
    assert Repeat<seq<EdgeIndex>>([], E.PeriodLength + 1) == Repeat<seq<EdgeIndex>>([], E.PeriodLength) + [[]];
    res := Ok(|days.nodes|);
    AddNodeValid(days, Period(p));
    r := AddNode(days, Period(p)).1;
  }

  // ----------------------------------------------------------- add_work_order

  /** The node an activity of a work order becomes. */
  function ActivityNode(a: W.Activity): Node
  {
    Activity(a.activityNumber, a.numberOfPeople)
  }

  /** The edge kind a relation between consecutive activities becomes. */
  function PrecedenceEdge(rel: W.ActivityRelation): EdgeType
  {
    match rel
    case StartStart => StartStart
    case FinishStart => FinishStart
  }

  /** The precedence relation activity `i` gets from its predecessor: none for the first activity. */
  function RelationBefore(rels: seq<W.ActivityRelation>, i: nat): Option<W.ActivityRelation>
    requires i <= |rels|
  {
    if i == 0 then None else Some(rels[i - 1])
  }

  /** Number of edges the activity loop has created before activity `j`: two for the first, three for each later one. */
  function EdgesBefore(j: nat): nat
  {
    if j == 0 then 0 else 3 * j - 1
  }

  /**
   * The edges made for activity `j` (node `a`) start at position `pos`:
   * Contains [w, a], Requires [a, skill] and, after the first activity, the
   * precedence edge [prev, a].
   */
  predicate ActivityEdgesAt(g: ScheduleGraph, pos: nat, w: NodeIndex, a: NodeIndex, prev: NodeIndex, j: nat,
                            skill: NodeIndex, rels: seq<W.ActivityRelation>)
  {
    && pos + 2 <= |g.hyperedges|
    && g.hyperedges[pos] == HyperEdge(Contains, [w, a])
    && g.hyperedges[pos + 1] == HyperEdge(Requires, [a, skill])
    && (j > 0 ==> pos + 3 <= |g.hyperedges| && j - 1 < |rels|
                  && g.hyperedges[pos + 2] == HyperEdge(PrecedenceEdge(rels[j - 1]), [prev, a]))
  }

  /** Every activity needs a skill that is indexed. */
  predicate SkillsIndexed(g: ScheduleGraph, activities: seq<W.Activity>)
  {
    forall j :: 0 <= j < |activities| ==> Skill(activities[j].resource) in g.index
  }

  /**
   * One pass of the activity loop of `add_work_order`: the activity's node,
   * its Contains and Requires edges and, when `rel` is present, the
   * precedence edge from `prev`.
   */
  function AddActivity(g: ScheduleGraph, w: NodeIndex, activity: W.Activity, rel: Option<W.ActivityRelation>,
                       prev: NodeIndex): (r: ScheduleGraph)
    requires Aligned(g)
    requires w < |g.nodes| && prev < |g.nodes|
    requires Skill(activity.resource) in g.index
    ensures Aligned(r) && r.index == g.index
    ensures r.nodes == g.nodes + [ActivityNode(activity)]
    ensures r.hyperedges == g.hyperedges + [HyperEdge(Contains, [w, |g.nodes|]),
                                            HyperEdge(Requires, [|g.nodes|, g.index[Skill(activity.resource)]])]
                                          + (if rel.Some? then [HyperEdge(PrecedenceEdge(rel.value), [prev, |g.nodes|])] else [])
  {
    var a := |g.nodes|;
    var g1 := AddNode(g, ActivityNode(activity)).1;
    var g2 := AddEdge(g1, Contains, [w, a]).1;
    var g3 := AddEdge(g2, Requires, [a, g1.index[Skill(activity.resource)]]).1;
    if rel.Some? then AddEdge(g3, PrecedenceEdge(rel.value), [prev, a]).1 else g3
  }

  /** One pass of the activity loop keeps the graph valid. */
  lemma AddActivityValid(g: ScheduleGraph, w: NodeIndex, activity: W.Activity, rel: Option<W.ActivityRelation>,
                         prev: NodeIndex)
    requires Aligned(g)
    requires w < |g.nodes| && prev < |g.nodes|
    requires Skill(activity.resource) in g.index
    ensures Valid(g) ==> Valid(AddActivity(g, w, activity, rel, prev))
  {
    var a := |g.nodes|;
    var g1 := AddNode(g, ActivityNode(activity)).1;
    AddNodeValid(g, ActivityNode(activity));
    var g2 := AddEdge(g1, Contains, [w, a]).1;
    AddEdgeValid(g1, Contains, [w, a]);
    var s := g1.index[Skill(activity.resource)];
    AddEdgeValid(g2, Requires, [a, s]);
    if rel.Some? {
      var g3 := AddEdge(g2, Requires, [a, s]).1;
      AddEdgeValid(g3, PrecedenceEdge(rel.value), [prev, a]);
    }
  }

  /**
   * Activities `0 .. i - 1` are in place: their nodes follow the work order
   * node `w`, and their edges follow position `edgeBase` in the layout
   * `EdgesBefore` gives.
   */
  predicate ActivitiesPlaced(r: ScheduleGraph, edgeBase: nat, w: NodeIndex, activities: seq<W.Activity>,
                             index: map<Node, NodeIndex>, rels: seq<W.ActivityRelation>, i: nat)
  {
    && i <= |activities|
    && |r.nodes| == w + 1 + i
    && |r.hyperedges| == edgeBase + EdgesBefore(i)
    && (forall j :: 0 <= j < i ==> r.nodes[w + 1 + j] == ActivityNode(activities[j]))
    && (forall j :: 0 <= j < i ==>
          Skill(activities[j].resource) in index
          && ActivityEdgesAt(r, edgeBase + EdgesBefore(j), w, w + 1 + j, w + j, j, index[Skill(activities[j].resource)], rels))
  }

  /** One pass of the activity loop puts activity `i` in place and keeps the earlier ones. */
  lemma PlaceActivity(r: ScheduleGraph, next: ScheduleGraph, edgeBase: nat, w: NodeIndex, activities: seq<W.Activity>,
                      index: map<Node, NodeIndex>, rels: seq<W.ActivityRelation>, i: nat)
    requires ActivitiesPlaced(r, edgeBase, w, activities, index, rels, i)
    requires i < |activities| <= |rels| + 1 && Skill(activities[i].resource) in index
    requires next.nodes == r.nodes + [ActivityNode(activities[i])]
    requires next.hyperedges == r.hyperedges + [HyperEdge(Contains, [w, |r.nodes|]),
                                                HyperEdge(Requires, [|r.nodes|, index[Skill(activities[i].resource)]])]
                                              + (if i > 0 then [HyperEdge(PrecedenceEdge(rels[i - 1]), [w + i, |r.nodes|])] else [])
    ensures ActivitiesPlaced(next, edgeBase, w, activities, index, rels, i + 1)
  {
    forall j | 0 <= j <= i
      ensures next.nodes[w + 1 + j] == ActivityNode(activities[j])
    {
      if j < i {
        assert next.nodes[w + 1 + j] == r.nodes[w + 1 + j];
      }
    }
    forall j | 0 <= j <= i
      ensures ActivityEdgesAt(next, edgeBase + EdgesBefore(j), w, w + 1 + j, w + j, j,
                              index[Skill(activities[j].resource)], rels)
    {
      var pos := edgeBase + EdgesBefore(j);
      if j < i {
        assert ActivityEdgesAt(r, pos, w, w + 1 + j, w + j, j, index[Skill(activities[j].resource)], rels);
        assert next.hyperedges[pos] == r.hyperedges[pos];
        assert next.hyperedges[pos + 1] == r.hyperedges[pos + 1];
        if j > 0 {
          assert next.hyperedges[pos + 2] == r.hyperedges[pos + 2];
        }
      } else {
        assert pos == |r.hyperedges|;
      }
    }
  }

  /** What the activity loop keeps: the graph well aligned and valid when it started valid, the activities so far in place, and the old contents kept. */
  ghost predicate ActivityLoopInvariant(g: ScheduleGraph, r: ScheduleGraph, w: NodeIndex, activities: seq<W.Activity>,
                                        rels: seq<W.ActivityRelation>, i: nat)
  {
    && Aligned(r) && r.index == g.index
    && (Valid(g) ==> Valid(r))
    && ActivitiesPlaced(r, |g.hyperedges|, w, activities, g.index, rels, i)
    && |g.nodes| <= |r.nodes| && r.nodes[..|g.nodes|] == g.nodes
    && |g.hyperedges| <= |r.hyperedges| && r.hyperedges[..|g.hyperedges|] == g.hyperedges
  }

  /** One pass of the activity loop keeps the old contents and puts one more activity in place. */
  lemma ActivityLoopPlaces(g: ScheduleGraph, r: ScheduleGraph, w: NodeIndex, activities: seq<W.Activity>,
                           rels: seq<W.ActivityRelation>, i: nat)
    requires w == |g.nodes| - 1 && SkillsIndexed(g, activities) && |activities| <= |rels| + 1
    requires Aligned(r) && r.index == g.index && i < |activities|
    requires ActivitiesPlaced(r, |g.hyperedges|, w, activities, g.index, rels, i)
    requires |g.nodes| <= |r.nodes| && r.nodes[..|g.nodes|] == g.nodes
    requires |g.hyperedges| <= |r.hyperedges| && r.hyperedges[..|g.hyperedges|] == g.hyperedges
    ensures var next := AddActivity(r, w, activities[i], RelationBefore(rels, i), w + i);
      && ActivitiesPlaced(next, |g.hyperedges|, w, activities, g.index, rels, i + 1)
      && |g.nodes| <= |next.nodes| && next.nodes[..|g.nodes|] == g.nodes
      && |g.hyperedges| <= |next.hyperedges| && next.hyperedges[..|g.hyperedges|] == g.hyperedges
  {
    var next := AddActivity(r, w, activities[i], RelationBefore(rels, i), w + i);
    assert |g.nodes| <= |next.nodes| && next.nodes[..|g.nodes|] == g.nodes by {
      PrefixThroughAppend(g.nodes, r.nodes, [ActivityNode(activities[i])]);
    }
    assert |g.hyperedges| <= |next.hyperedges| && next.hyperedges[..|g.hyperedges|] == g.hyperedges by {
      assert next.hyperedges == r.hyperedges + next.hyperedges[|r.hyperedges|..];
      PrefixThroughAppend(g.hyperedges, r.hyperedges, next.hyperedges[|r.hyperedges|..]);
    }
    PlaceActivity(r, next, |g.hyperedges|, w, activities, g.index, rels, i);
  }

  /** One pass of the activity loop keeps its invariant. */
  lemma ActivityLoopStep(g: ScheduleGraph, r: ScheduleGraph, w: NodeIndex, activities: seq<W.Activity>,
                         rels: seq<W.ActivityRelation>, i: nat)
    requires w == |g.nodes| - 1 && SkillsIndexed(g, activities) && |activities| <= |rels| + 1
    requires i < |activities| && ActivityLoopInvariant(g, r, w, activities, rels, i)
    ensures ActivityLoopInvariant(g, AddActivity(r, w, activities[i], RelationBefore(rels, i), w + i), w, activities, rels, i + 1)
  {
    AddActivityValid(r, w, activities[i], RelationBefore(rels, i), w + i);
    ActivityLoopPlaces(g, r, w, activities, rels, i);
  }

  /**
   * The activity loop of `add_work_order`: appends, for each activity in
   * order, its node, its Contains and Requires edges and, after the first,
   * its precedence edge from the previous activity. The loop's skill lookup
   * cannot fail, because `add_work_order` checked every skill first; that
   * check is the precondition here.
   */
  method AddActivities(g: ScheduleGraph, w: NodeIndex, activities: seq<W.Activity>, rels: seq<W.ActivityRelation>)
    returns (r: ScheduleGraph)
    requires Aligned(g) && w == |g.nodes| - 1
    requires SkillsIndexed(g, activities) && |activities| <= |rels| + 1
    ensures Aligned(r) && r.index == g.index
    ensures Valid(g) ==> Valid(r)
    ensures ActivitiesPlaced(r, |g.hyperedges|, w, activities, g.index, rels, |activities|)
    ensures r.nodes[..|g.nodes|] == g.nodes && r.hyperedges[..|g.hyperedges|] == g.hyperedges
  {
    r := g;
    var i := 0;
    assert r.nodes[..|g.nodes|] == g.nodes && r.hyperedges[..|g.hyperedges|] == g.hyperedges;
    while i < |activities|
      invariant i <= |activities|
      invariant ActivityLoopInvariant(g, r, w, activities, rels, i)
    {
      ActivityLoopStep(g, r, w, activities, rels, i);
      r := AddActivity(r, w, activities[i], RelationBefore(rels, i), w + i);
      i := i + 1;
    }
  }

  /** The first check of `add_work_order` that fails, if any. */
  function WorkOrderRejection(g: ScheduleGraph, workOrder: W.WorkOrder): (e: Option<ScheduleGraphError>)
    ensures e == Some(WorkOrderActivityMissingSkills) <==> !SkillsIndexed(g, workOrder.activities)
    ensures e == Some(DayMissing) <==>
      SkillsIndexed(g, workOrder.activities) && Day(workOrder.basicStartDate) !in g.index
    ensures e == Some(WorkOrderDuplicate) <==>
      && SkillsIndexed(g, workOrder.activities) && Day(workOrder.basicStartDate) in g.index
      && WorkOrder(workOrder.workOrderNumber) in g.index
    ensures e.None? <==>
      && SkillsIndexed(g, workOrder.activities) && Day(workOrder.basicStartDate) in g.index
      && WorkOrder(workOrder.workOrderNumber) !in g.index
  {
    if !SkillsIndexed(g, workOrder.activities) then Some(WorkOrderActivityMissingSkills)
    else if Day(workOrder.basicStartDate) !in g.index then Some(DayMissing)
    else if WorkOrder(workOrder.workOrderNumber) in g.index then Some(WorkOrderDuplicate)
    else None
  }

  /**
   * `add_work_order`. Checks, in this order, that every activity's skill is
   * indexed, that the basic-start day is indexed and that the work order is
   * not; then creates the work order node, its BasicStart edge to the day,
   * and one node per activity with its Contains, Requires and precedence
   * edges. Returns the work order node.
   */
  method AddWorkOrder(g: ScheduleGraph, workOrder: W.WorkOrder) returns (res: GraphResult<NodeIndex>, r: ScheduleGraph)
    requires Aligned(g)
    ensures res.Err? <==> WorkOrderRejection(g, workOrder).Some?
    ensures res.Err? ==> res.error == WorkOrderRejection(g, workOrder).value && r == g
    ensures Aligned(r)
    ensures Valid(g) ==> Valid(r)
    ensures res.Ok? ==>
      && res.value == |g.nodes|
      && r.index == g.index[WorkOrder(workOrder.workOrderNumber) := res.value]
    ensures res.Ok? ==>
      && ActivitiesPlaced(r, |g.hyperedges| + 1, |g.nodes|, workOrder.activities, g.index,
                          W.ActivitiesRelations(workOrder), |workOrder.activities|)
      && r.nodes[..|g.nodes|] == g.nodes
      && r.nodes[|g.nodes|] == WorkOrder(workOrder.workOrderNumber)
      && r.hyperedges[..|g.hyperedges|] == g.hyperedges
      && r.hyperedges[|g.hyperedges|] == HyperEdge(BasicStart, [|g.nodes|, g.index[Day(workOrder.basicStartDate)]])
  {
    var rejection := WorkOrderRejection(g, workOrder);
    if rejection.Some? {
      return Err(rejection.value), g;
    }
    var w := |g.nodes|;
    var g1 := AddNode(g, WorkOrder(workOrder.workOrderNumber)).1;
    AddNodeValid(g, WorkOrder(workOrder.workOrderNumber));
    var g2 := AddEdge(g1, BasicStart, [w, g.index[Day(workOrder.basicStartDate)]]).1;
    AddEdgeValid(g1, BasicStart, [w, g.index[Day(workOrder.basicStartDate)]]);
    r := AddActivities(g2, w, workOrder.activities, W.ActivitiesRelations(workOrder));
    assert r.nodes[..|g.nodes|] == r.nodes[..|g2.nodes|][..|g.nodes|];
    assert r.hyperedges[..|g.hyperedges|] == r.hyperedges[..|g2.hyperedges|][..|g.hyperedges|];
    assert r.hyperedges[|g.hyperedges|] == r.hyperedges[..|g2.hyperedges|][|g.hyperedges|];
    res := Ok(w);
  }
  // ----------------------------------------------------------- add_technician

  /** The lookup keys of a list of skills. */
  function SkillKeys(skills: seq<T.Skill>): seq<Node>
  {
    seq(|skills|, i requires 0 <= i < |skills| => Skill(skills[i]))
  }

  /** The lookup keys of a list of dates. */
  function DayKeys(dates: seq<E.Date>): seq<Node>
  {
    seq(|dates|, i requires 0 <= i < |dates| => Day(dates[i]))
  }

  /** `count` consecutive dates from `start`, ascending. */
  function DateRange(start: E.Date, count: nat): (ds: seq<E.Date>)
    ensures |ds| == count
    ensures forall d :: d in ds <==> start <= d < start + count
    ensures StrictlyIncreasing(ds)
  {
    var ds := seq(count, k => start + k);
    assert forall d :: start <= d < start + count ==> d in ds by {
      forall d | start <= d < start + count
        ensures d in ds
      {
        assert ds[d - start] == d;
      }
    }
    ds
  }

  /**
   * The calendar dates an availability touches: from its start date to its
   * finish date inclusive, ascending; none when it finishes on an earlier
   * date than it starts.
   */
  function AvailabilityDates(a: T.Availability): (ds: seq<E.Date>)
    ensures forall d :: d in ds <==> a.StartDate() <= d <= a.FinishDate()
    ensures StrictlyIncreasing(ds)
  {
    var span := a.FinishDate() - a.StartDate();
    DateRange(a.StartDate(), if span < 0 then 0 else span + 1)
  }

  /** Every skill of the technician has a node exactly when the lookup of its ordered skill list succeeds. */
  lemma LookupSkillsIff(g: ScheduleGraph, t: T.Technician)
    ensures LookupAll(g, SkillKeys(T.Skills(t))).Some? <==> forall s :: s in t.skills ==> Skill(s) in g.index
  {
    var skills := T.Skills(t);
    if forall i :: 0 <= i < |skills| ==> SkillKeys(skills)[i] in g.index {
      forall s | s in t.skills
        ensures Skill(s) in g.index
      {
        assert SkillKeys(skills)[IndexOf(skills, s)] == Skill(s);
      }
    }
  }

  /** Every listed date has a node exactly when the lookup of the list succeeds. */
  lemma LookupDaysIff(g: ScheduleGraph, dates: seq<E.Date>)
    ensures LookupAll(g, DayKeys(dates)).Some? <==> forall d :: d in dates ==> Day(d) in g.index
  {
    if forall i :: 0 <= i < |dates| ==> DayKeys(dates)[i] in g.index {
      forall d | d in dates
        ensures Day(d) in g.index
      {
        assert DayKeys(dates)[IndexOf(dates, d)] == Day(d);
      }
    }
  }

  /** The first check of `add_technician` that fails, if any, stated over the technician's skill set and the window's dates. */
  function TechnicianRejection(g: ScheduleGraph, t: T.Technician, a: T.Availability): (e: Option<ScheduleGraphError>)
    ensures e == Some(WorkerDuplicate) <==> Technician(t.technicianId) in g.index
    ensures e == Some(SkillMissing) <==>
      && Technician(t.technicianId) !in g.index
      && exists s :: s in t.skills && Skill(s) !in g.index
    ensures e == Some(DayMissing) <==>
      && Technician(t.technicianId) !in g.index
      && (forall s :: s in t.skills ==> Skill(s) in g.index)
      && exists d :: a.StartDate() <= d <= a.FinishDate() && Day(d) !in g.index
    ensures e.None? <==>
      && Technician(t.technicianId) !in g.index
      && (forall s :: s in t.skills ==> Skill(s) in g.index)
      && (forall d :: a.StartDate() <= d <= a.FinishDate() ==> Day(d) in g.index)
  {
    LookupSkillsIff(g, t);
    LookupDaysIff(g, AvailabilityDates(a));
    if Technician(t.technicianId) in g.index then Some(WorkerDuplicate)
    else if LookupAll(g, SkillKeys(T.Skills(t))).None? then Some(SkillMissing)
    else if LookupAll(g, DayKeys(AvailabilityDates(a))).None? then Some(DayMissing)
    else None
  }

  /** The node list of a technician's Available edge: the technician, its skills in order, the window's days in order. */
  function AvailableEdgeNodes(g: ScheduleGraph, t: T.Technician, a: T.Availability): (ns: seq<NodeIndex>)
    requires LookupAll(g, SkillKeys(T.Skills(t))).Some? && LookupAll(g, DayKeys(AvailabilityDates(a))).Some?
    ensures Aligned(g) ==> AllBelow(ns, |g.nodes| + 1)
  {
    [|g.nodes|] + Handles(g, SkillKeys(T.Skills(t))) + Handles(g, DayKeys(AvailabilityDates(a)))
  }

  /**
   * `add_technician`. Checks that the technician is new, that each of its
   * skills (in ascending order) and each date of the window has a node;
   * then creates the technician node and one Available edge listing the
   * technician, its skills and the window's days. Returns the edge.
   */
  function AddTechnician(g: ScheduleGraph, t: T.Technician, a: T.Availability): (r: (GraphResult<EdgeIndex>, ScheduleGraph))
    requires Aligned(g)
    ensures r.0.Err? <==> TechnicianRejection(g, t, a).Some?
    ensures r.0.Err? ==> r.0.error == TechnicianRejection(g, t, a).value && r.1 == g
    ensures Aligned(r.1)
    ensures Valid(g) ==> Valid(r.1)
    ensures r.0.Ok? ==>
      && r.0.value == |g.hyperedges|
      && r.1.nodes == g.nodes + [Technician(t.technicianId)]
      && r.1.index == g.index[Technician(t.technicianId) := |g.nodes|]
      && r.1.hyperedges == g.hyperedges + [HyperEdge(Available, AvailableEdgeNodes(g, t, a))]
  {
    match TechnicianRejection(g, t, a)
    case Some(e) => (Err(e), g)
    case None =>
      var ns := AvailableEdgeNodes(g, t, a);
      var g1 := AddNode(g, Technician(t.technicianId)).1;
      AddNodeValid(g, Technician(t.technicianId));
      AddEdgeValid(g1, Available, ns);
      (Ok(|g.hyperedges|), AddEdge(g1, Available, ns).1)
  }
}
