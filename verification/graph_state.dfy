/**
 * The state of the scheduling hypergraph and its two primitives.
 *
 * The state is an append-only node arena, an append-only hyperedge arena, one
 * incidence list per node and the key index. A node handle is the node's
 * position in the arena and an edge handle the edge's position in its arena.
 *
 * The source keeps five lookup tables (technician id, work order number,
 * period, skill, date). Their key types are disjoint and each key is exactly
 * the payload of one node variant, so they are modelled as one map from the
 * keyed node to its handle: `technician_indices[id]` is `index[Technician(id)]`.
 */
module GraphState {
  import opened Results
  import opened Sequences
  import E = Environment
  import T = Technicians
  import W = WorkOrders

  type NodeIndex = nat
  type EdgeIndex = nat
  type TechnicianId = nat

  /** A time of day. The graph stores it and never inspects it. */
  type TimeOfDay = int

  /** The closed set of faults the public operations return. */
  datatype ScheduleGraphError =
    | ActivityMissing
    | DayMissing
    | PeriodDuplicate
    | PeriodMissing
    | SkillMissing
    | WorkOrderActivityMissingSkills
    | WorkOrderDuplicate
    | WorkOrderMissing
    | WorkerUnavailable
    | WorkerMissing
    | WorkerDuplicate
    | ActivityExceedNumberOfPeople

  /** A node of the graph; every variant but `Activity` is its own lookup key. */
  datatype Node =
    | Technician(technicianId: TechnicianId)
    | WorkOrder(workOrderNumber: W.WorkOrderNumber)
    | Activity(activityNumber: W.ActivityNumber, numberOfPeople: W.NumberOfPeople)
    | Period(period: E.Period)
    | Skill(skill: T.Skill)
    | Day(date: E.Date)

  datatype TimeWindow = TimeWindow(start: TimeOfDay, finish: TimeOfDay)

  /** The kind of a hyperedge; the meaning of each position of its node list depends on it. */
  datatype EdgeType =
    | Assign(window: Option<TimeWindow>)
    | Available
    | Exclude
    | BasicStart
    | Contains
    | Requires
    | StartStart
    | FinishStart
    | HasSkill

  datatype HyperEdge = HyperEdge(edgeType: EdgeType, nodes: seq<NodeIndex>)

  /** What a fallible graph operation returns. */
  type GraphResult<T> = Result<T, ScheduleGraphError>

  datatype ScheduleGraph = ScheduleGraph(
    nodes: seq<Node>,
    hyperedges: seq<HyperEdge>,
    incidence: seq<seq<EdgeIndex>>,
    index: map<Node, NodeIndex>)

  /** `ScheduleGraph::new`. */
  const Empty: ScheduleGraph := ScheduleGraph([], [], [], map[])

  /** Whether a node is recorded in the key index; activities never are. */
  predicate Keyed(m: Node)
  {
    !m.Activity?
  }

  /** Every handle stored in `m` is below `bound`. */
  predicate HandlesBelow<K>(m: map<K, NodeIndex>, bound: nat)
  {
    forall k :: k in m ==> m[k] < bound
  }

  /** One incidence list per node, and the index names existing nodes. */
  predicate Aligned(g: ScheduleGraph)
  {
    |g.incidence| == |g.nodes| && HandlesBelow(g.index, |g.nodes|)
  }

  /** Edges name existing nodes and incidence lists name existing edges. */
  predicate LinksBounded(g: ScheduleGraph)
  {
    && (forall e :: 0 <= e < |g.hyperedges| ==> AllBelow(g.hyperedges[e].nodes, |g.nodes|))
    && (forall n :: 0 <= n < |g.incidence| ==> AllBelow(g.incidence[n], |g.hyperedges|))
  }

  /**
   * The bounds every reachable state keeps, so that no lookup of the
   * operations can go out of range.
   */
  predicate WellFormed(g: ScheduleGraph)
  {
    Aligned(g) && LinksBounded(g)
  }

  /**
   * `add_node`: appends `node` and an empty incidence list and records the
   * node's key. The source asserts the key was absent; here that is the
   * precondition.
   */
  function AddNode(g: ScheduleGraph, node: Node): (r: (NodeIndex, ScheduleGraph))
    requires Keyed(node) ==> node !in g.index
    ensures r.0 == |g.nodes|
    ensures r.1.nodes == g.nodes + [node] && r.1.hyperedges == g.hyperedges
    ensures r.1.incidence == g.incidence + [[]]
    ensures r.1.index == if Keyed(node) then g.index[node := r.0] else g.index
    ensures Aligned(g) ==> Aligned(r.1)
  {
    var h := |g.nodes|;
    (h, ScheduleGraph(g.nodes + [node], g.hyperedges, g.incidence + [[]], if Keyed(node) then g.index[node := h] else g.index))
  }

  /** Appends `e` to the incidence list of every node in `ns`, in list order. */
  function PushIncidence(incidence: seq<seq<EdgeIndex>>, ns: seq<NodeIndex>, e: EdgeIndex): (r: seq<seq<EdgeIndex>>)
    requires AllBelow(ns, |incidence|)
    ensures |r| == |incidence|
    ensures forall n: NodeIndex :: n < |incidence| ==> r[n] == incidence[n] + Repeat(e, Count(ns, n))
    decreases |ns|
  {
    if ns == [] then incidence
    else
      var n0 := ns[0];
      var next := incidence[n0 := incidence[n0] + [e]];
      var r := PushIncidence(next, ns[1..], e);
      assert forall n: NodeIndex :: n < |incidence| ==> r[n] == incidence[n] + Repeat(e, Count(ns, n)) by {
        forall n: NodeIndex | n < |incidence|
          ensures r[n] == incidence[n] + Repeat(e, Count(ns, n))
        {
          if n == n0 {
            assert Repeat(e, Count(ns, n)) == [e] + Repeat(e, Count(ns[1..], n));
          }
        }
      }
      r
  }

  /**
   * `add_edge`: appends the hyperedge and adds its handle to the incidence
   * list of each listed node, once per occurrence.
   */
  function AddEdge(g: ScheduleGraph, edgeType: EdgeType, ns: seq<NodeIndex>): (r: (EdgeIndex, ScheduleGraph))
    requires AllBelow(ns, |g.incidence|)
    ensures r.0 == |g.hyperedges|
    ensures r.1.hyperedges == g.hyperedges + [HyperEdge(edgeType, ns)]
    ensures r.1.nodes == g.nodes && r.1.index == g.index
    ensures |r.1.incidence| == |g.incidence|
    ensures forall n: NodeIndex :: n < |g.incidence| ==> r.1.incidence[n] == g.incidence[n] + Repeat(r.0, Count(ns, n))
    ensures Aligned(g) ==> Aligned(r.1)
  {
    var e := |g.hyperedges|;
    (e, ScheduleGraph(g.nodes, g.hyperedges + [HyperEdge(edgeType, ns)], PushIncidence(g.incidence, ns, e), g.index))
  }

  /** Edges pushed without updating incidence: `add_assignment_work_order` makes these. */
  predicate Bypass(edge: HyperEdge)
  {
    edge.edgeType == Assign(None)
  }

  /**
   * Reference definition of a node's incidence list: the handles of the
   * non-bypass edges naming `n`, in creation order, once per occurrence of `n`.
   */
  function IncidenceOf(edges: seq<HyperEdge>, n: NodeIndex): seq<EdgeIndex>
  {
    if edges == [] then []
    else
      var last := |edges| - 1;
      IncidenceOf(edges[..last], n)
        + (if Bypass(edges[last]) then [] else Repeat<EdgeIndex>(last, Count(edges[last].nodes, n)))
  }

  /** The index maps each key to the one node carrying it, and every keyed node is indexed. */
  ghost predicate IndexCoherent(g: ScheduleGraph)
  {
    && (forall m :: m in g.index ==> g.index[m] < |g.nodes| && g.nodes[g.index[m]] == m)
    && (forall h :: 0 <= h < |g.nodes| && Keyed(g.nodes[h]) ==> g.nodes[h] in g.index && g.index[g.nodes[h]] == h)
  }

  /** Every incidence list is exactly its reference definition. */
  ghost predicate IncidenceExact(g: ScheduleGraph)
  {
    && |g.incidence| == |g.nodes|
    && forall n :: 0 <= n < |g.nodes| ==> g.incidence[n] == IncidenceOf(g.hyperedges, n)
  }

  /** The representation invariant of the graph. */
  ghost predicate Valid(g: ScheduleGraph)
  {
    WellFormed(g) && IndexCoherent(g) && IncidenceExact(g)
  }

  /** The handles the index records for `keys`, in order. */
  function Handles(g: ScheduleGraph, keys: seq<Node>): (hs: seq<NodeIndex>)
    requires forall i :: 0 <= i < |keys| ==> keys[i] in g.index
    ensures |hs| == |keys|
    ensures Aligned(g) ==> AllBelow(hs, |g.nodes|)
  {
    seq(|keys|, i requires 0 <= i < |keys| => g.index[keys[i]])
  }

  /** Looks every key up, failing when one is missing (the source's `ok_or(..)?` loops). */
  function LookupAll(g: ScheduleGraph, keys: seq<Node>): (r: Option<seq<NodeIndex>>)
    ensures r.Some? <==> forall i :: 0 <= i < |keys| ==> keys[i] in g.index
    ensures r.Some? ==> r.value == Handles(g, keys)
    decreases |keys|
  {
    if keys == [] then Some([])
    else if keys[0] !in g.index then None
    else match LookupAll(g, keys[1..])
      case None => None
      case Some(rest) => Some([g.index[keys[0]]] + rest)
  }
}
