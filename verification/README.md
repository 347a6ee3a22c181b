# Scheduling hypergraph: a Dafny model

This project models the core of `ordinator-hypergraph`: the typed scheduling
hypergraph `ScheduleGraph`, and the value types it is built from.

**Nodes.** The graph's nodes are:
- technicians;
- work orders and their activities;
- skills;
- periods;
- days.

**Hyperedges.** Hyperedges relate nodes in a kind-specific layout:
- Available [technician, skills, days];
- BasicStart [work order, day];
- Contains [work order, activity];
- Requires [activity, skill];
- precedence [previous activity, activity];
- HasSkill [technician, skill];
- Exclude [work order, period, days];
- Assign, either [technician, work order, period] or [activity, technicians, days].

**State.** The graph is append-only. It holds a node arena, an edge arena, one incidence list per node (the edges that name it), and key indices that map a technician id, work-order number, period, skill or date to its node.

**Modules.**

- `Results` (`results.dfy`): Rust's `Option` and `Result`.
- `Environment` (`environment.dfy`): Dates as day numbers, date-times as nanoseconds on the same axis, and the `Period` newtype of `lib.rs`.
- `Technicians` (`technician.dfy`): the types of `technician.rs`. Skills, availability windows with their overlap test and order, the builder that refuses overlapping windows, and the technician accessors.
- `WorkOrders` (`work_order.dfy`): Activities and their derived order, the validation of `WorkOrder::new`, and `activities_relations`.
- `Sequences` (`sequences.dfy`): Counting, repetition and ordering helpers.
- `GraphState` (`graph_state.dfy`): The graph record, `add_node`, `add_edge`, and the invariant `Valid`.
- `GraphInvariants` (`graph_invariants.dfy`): The reference definition of incidence lists. Proofs that the empty graph and both primitives keep `Valid`, and that the incidence-bypassing push of `add_assignment_work_order` keeps it too. Soundness and completeness of incidence, and uniqueness of keyed nodes.
- `GraphOps` (`graph_ops.dfy`): `add_skill`, `add_period`, `add_work_order` and `add_technician`.
- `GraphEdges` (`graph_edges.dfy`): `add_assignment_work_order`, `add_assign_skill_to_worker`, `add_exclusion` and `add_assignment_activity`.
- `GraphQuery` (`graph_query.dfy`): `find_all_assignments_for_period`, as written and corrected.
- `GraphProperties` (`graph_properties.dfy`): What the created edges mean when read back through the graph.

**Index maps.** The five index maps are one map `index: map<Node, NodeIndex>` from the keyed node to its handle: `technician_indices[id]` is `index[Technician(id)]`. The key types are disjoint, and each key is the payload of exactly one node variant, so nothing is lost.

**Graph invariant.** `Valid(g)` says:
- the arenas and incidence lists are aligned and in bounds;
- the index maps each key to the one node that carries it, and every keyed node is indexed;
- every incidence list is exactly `IncidenceOf(hyperedges, n)`.

`IncidenceOf` is a reference definition: the handles of the edges that name `n`, in creation order, once per occurrence of `n`. It skips `Assign(None)` edges. Only `add_assignment_work_order` creates those, and it pushes them without touching incidence.

**Operation shape.** Every operation returns its result together with the new graph. Each operation is proved to keep `Valid`. Each fallible operation is proved to return the graph unchanged on every error, and to report exactly the first failing check in the source's order.

**Behaviours of the source the model keeps.**
- `activities_relations` returns one relation per activity (`work_order.rs:101-104`), although a chain of `k` activities has only `k - 1` links. `add_work_order` reads only the first `k - 1` of them.
- `add_assignment_work_order` pushes its edge directly instead of going through `add_edge` (`schedule_graph.rs:331-337`). Its edge is therefore in no incidence list.
- `add_exclusion` fails only when the work order or the period has no node (`schedule_graph.rs:490-494`). Its doc comment (`schedule_graph.rs:482-486`) also lists a failure when the exclusion edge already exists, but the code never checks for one. The model keeps the code: a repeated exclusion is accepted and appends a second, equal edge (`GraphEdges.AddExclusionRepeatAccepted`).
- `add_work_order` fails only before its first change. The `SkillMissing` lookup inside the activity loop cannot fail once the all-skills check at the top has passed. So an error never leaves the graph partly changed.

## Model

| member | source | states |
|---|---|---|
| `Environment.DateOf` | crates/scheduling_environment/src/technician.rs:47-55 | The date of a date-time is the day whose span of `NanosPerDay` nanoseconds contains it, rounding down for times before the epoch too. |
| `Technicians.Availability.StartDate` | crates/scheduling_environment/src/technician.rs:47-50 | The start date is the day whose span contains the window's start. |
| `Technicians.Availability.FinishDate` | crates/scheduling_environment/src/technician.rs:52-55 | The finish date is the day whose span contains the window's end. |
| `Technicians.Availability.OverlapsWith` | crates/scheduling_environment/src/technician.rs:57-62 | Windows that share an instant overlap. When both windows start before they end, overlapping is exactly sharing an instant. |
| `Technicians.Compare` | crates/scheduling_environment/src/technician.rs:74-80 | Windows compare by start, then by end: `Less` exactly when the start is earlier, or the starts are equal and the end is earlier; `Equal` exactly when both fields match. |
| `Technicians.CompareIsLexicographic` | crates/scheduling_environment/src/technician.rs:66-80 | The order is antisymmetric (`a < b` iff `b > a`), and two windows compare `Equal` iff start and end are both equal. |
| `Technicians.OverlapsSymmetric` | crates/scheduling_environment/src/technician.rs:58-62 | `a` overlaps `b` iff `b` overlaps `a`. |
| `Technicians.TouchingWindowsDoNotOverlap` | crates/scheduling_environment/src/technician.rs:58-62 | A window ending exactly where another starts overlaps it in neither direction. |
| `Technicians.SelfOverlap` | crates/scheduling_environment/src/technician.rs:58-62 | A window overlaps itself iff it starts before it ends. |
| `Technicians.Builder` | crates/scheduling_environment/src/technician.rs:99-106 | A new builder has the given id, no windows and no skills. |
| `Technicians.FirstOverlap` | crates/scheduling_environment/src/technician.rs:113-121 | Finds the first stored window, in iteration order, that overlaps the new one; none exactly when no stored window overlaps. |
| `Technicians.Insert` | crates/scheduling_environment/src/technician.rs:124 | Ordered-set insertion: the stored windows afterwards are the old ones plus the new one, still strictly ascending. |
| `Technicians.AddAvailability` | crates/scheduling_environment/src/technician.rs:108-126 | `OverlappingAvailability` iff the new window overlaps a stored one, carrying the new window and the first overlapping stored window. On success: the id and skills are kept, and the windows gain exactly the new one and keep ascending order. |
| `Technicians.AddAvailabilityKeepsDisjoint` | crates/scheduling_environment/src/technician.rs:108-126 | An accepted window keeps the stored windows pairwise non-overlapping. |
| `Technicians.AddAvailabilitiesKeepsDisjoint` | crates/scheduling_environment/src/technician.rs:108-126 | Any chain of accepted windows, starting from a disjoint ascending set, leaves it disjoint, ascending and with the same id. |
| `Technicians.AddSkill` | crates/scheduling_environment/src/technician.rs:128-132 | Skill insertion: the skills afterwards are the old ones plus the new one; id and windows unchanged. |
| `Technicians.AddSkillIdempotent` | crates/scheduling_environment/src/technician.rs:128-132 | Adding the same skill twice is adding it once. |
| `Technicians.Build` | crates/scheduling_environment/src/technician.rs:134-142 | The technician keeps the builder's id, windows and skills. |
| `Technicians.Skills` | crates/scheduling_environment/src/technician.rs:156-159 | Lists exactly the technician's skills, strictly ascending in the derived order, so none twice. |
| `WorkOrders.ActivityLess` | crates/scheduling_environment/src/work_order.rs:15-21 | The derived order on activities, field by field: number, then people, then skill. It is irreflexive. |
| `WorkOrders.ActivityOrderTotal` | crates/scheduling_environment/src/work_order.rs:15-21 | The derived order is a strict total order: asymmetric, transitive, and any two distinct activities are comparable. |
| `WorkOrders.DecimalString` | crates/scheduling_environment/src/work_order.rs:72 | `to_string` of a number: a non-empty digit string without a leading zero (unless the number is 0) whose decimal value is the number. |
| `WorkOrders.DecimalLengthBounds` | crates/scheduling_environment/src/work_order.rs:72 | A positive number with `L` decimal digits lies in `[10^(L-1), 10^L)`. |
| `WorkOrders.TenDigits` | crates/scheduling_environment/src/work_order.rs:72-74 | The decimal text of a number has length 10 iff the number lies in `[1_000_000_000, 9_999_999_999]`. |
| `WorkOrders.IsSorted` | crates/scheduling_environment/src/work_order.rs:76 | `is_sorted`: every adjacent pair is in order, which holds iff every earlier activity is at most every later one. |
| `WorkOrders.SortedDuplicates` | crates/scheduling_environment/src/work_order.rs:76-82 | For sorted activities, having fewer distinct activities than entries is the same as some adjacent pair being equal. No such pair is the same as strictly ascending. |
| `WorkOrders.New` | crates/scheduling_environment/src/work_order.rs:70-89 | Checks run in order: `InvalidWorkOrderNumber` iff the number is not ten digits; then `NonSortedActivities` iff some adjacent pair decreases; then `DuplicatedActivities` iff sorted with an equal adjacent pair. Success iff the number is valid and the activities are strictly ascending, and then the fields are the arguments. |
| `WorkOrders.EmptyActivitiesAccepted` | crates/scheduling_environment/src/work_order.rs:70-89 | A valid number with no activities is accepted. |
| `WorkOrders.ActivitiesRelations` | crates/scheduling_environment/src/work_order.rs:101-104 | One relation per activity, every one `FinishStart`. |
| `GraphState.AddNode` | crates/schedule_hypergraph/src/schedule_graph.rs:522-544 | Returns the old node count and appends exactly the node and one empty incidence list. It records the key of a keyed node, and changes no index for an activity. |
| `GraphState.PushIncidence` | crates/schedule_hypergraph/src/schedule_graph.rs:550-552 | Each node's incidence list gains the edge once per occurrence of the node in the edge's list, and nothing else. |
| `GraphState.AddEdge` | crates/schedule_hypergraph/src/schedule_graph.rs:546-556 | Returns the old edge count, appends the edge, and extends each node's incidence list by that handle once per occurrence. Nodes and index unchanged. |
| `GraphState.LookupAll` | crates/schedule_hypergraph/src/schedule_graph.rs:281-285 | The lookup of a key list succeeds iff every key is indexed, and then yields their handles in order. |
| `GraphInvariants.EmptyValid` | crates/schedule_hypergraph/src/schedule_graph.rs:132-143 | The new, empty graph satisfies the invariant. |
| `GraphInvariants.IncidenceOfCount` | crates/schedule_hypergraph/src/schedule_graph.rs:546-556 | In the reference incidence list of `n`, edge `e` occurs exactly as often as `n` occurs in `e`, and never if `e` is a bypass edge. |
| `GraphInvariants.IncidenceOfOrdered` | crates/schedule_hypergraph/src/schedule_graph.rs:546-556 | Reference incidence lists name existing edges in non-decreasing creation order. |
| `GraphInvariants.AddNodeValid` | crates/schedule_hypergraph/src/schedule_graph.rs:522-544 | `add_node` with an absent key keeps the invariant. |
| `GraphInvariants.AddEdgeValid` | crates/schedule_hypergraph/src/schedule_graph.rs:546-556 | `add_edge` over existing nodes keeps the invariant. |
| `GraphInvariants.PushBypassValid` | crates/schedule_hypergraph/src/schedule_graph.rs:331-337 | Pushing an `Assign(None)` edge without touching incidence keeps the invariant. |
| `GraphInvariants.IncidenceSound` | crates/schedule_hypergraph/src/schedule_graph.rs:114-119 | In a valid graph every incidence entry of `n` names an existing edge that lists `n`. |
| `GraphInvariants.IncidenceComplete` | crates/schedule_hypergraph/src/schedule_graph.rs:546-556 | In a valid graph an edge made through `add_edge` is in the incidence list of each node it lists, once per occurrence. |
| `GraphInvariants.IncidenceOrdered` | crates/schedule_hypergraph/src/schedule_graph.rs:550-552 | In a valid graph each incidence list is in non-decreasing creation order and names existing edges. |
| `GraphInvariants.KeyedNodesDistinct` | crates/schedule_hypergraph/src/schedule_graph.rs:121-126 | In a valid graph no keyed node appears twice. |
| `GraphInvariants.IndexedIffPresent` | crates/schedule_hypergraph/src/schedule_graph.rs:121-126 | In a valid graph a key is indexed iff a node carrying it exists. |
| `GraphInvariants.HandlesResolve` | crates/schedule_hypergraph/src/schedule_graph.rs:121-126 | In a valid graph the handle looked up for an indexed key is a node carrying that key. |
| `GraphOps.AddSkill` | crates/schedule_hypergraph/src/schedule_graph.rs:181-187 | An indexed skill returns its existing handle with the graph unchanged. Otherwise exactly one Skill node is created and indexed. The invariant is kept. |
| `GraphOps.AddSkillIdempotent` | crates/schedule_hypergraph/src/schedule_graph.rs:181-187 | Adding a skill a second time returns the same handle and graph. |
| `GraphOps.AddDays` | crates/schedule_hypergraph/src/schedule_graph.rs:243-248 | The day loop appends one Day node per date in date order, each indexed at its position. Other keys are unchanged. The invariant is kept. |
| `GraphOps.AddPeriod` | crates/schedule_hypergraph/src/schedule_graph.rs:237-254 | `PeriodDuplicate` iff the period is indexed, with the graph unchanged. Otherwise: fourteen Day nodes for start..start+13 and then the Period node are appended, all indexed, and the handle returned is old count + 14. No edges. The invariant is kept. |
| `GraphOps.AddActivity` | crates/schedule_hypergraph/src/schedule_graph.rs:211-229 | One pass of the activity loop appends the activity node, its Contains [wo, act] and Requires [act, skill] edges, and, after the first activity, the precedence edge [prev, act]. |
| `GraphOps.AddActivityValid` | crates/schedule_hypergraph/src/schedule_graph.rs:211-229 | One pass of the activity loop keeps the invariant. |
| `GraphOps.PlaceActivity` | crates/schedule_hypergraph/src/schedule_graph.rs:209-229 | After a pass, activity `i` and all earlier ones sit at their positions in the node and edge layout. |
| `GraphOps.AddActivities` | crates/schedule_hypergraph/src/schedule_graph.rs:209-229 | The loop places every activity in the layout: nodes after the work order, and edges two for the first activity and three for each later one. It keeps the prefix of both arenas, the index and the invariant. |
| `GraphOps.WorkOrderRejection` | crates/schedule_hypergraph/src/schedule_graph.rs:191-206 | The first failing check, in order: `WorkOrderActivityMissingSkills` iff some activity's skill is unindexed; then `DayMissing` iff the basic-start day is unindexed; then `WorkOrderDuplicate` iff the number is indexed. |
| `GraphOps.AddWorkOrder` | crates/schedule_hypergraph/src/schedule_graph.rs:189-235 | Err iff a check fails, with that error and the graph unchanged. Otherwise it returns the new WorkOrder node, indexes it, adds the BasicStart edge [wo, day] and places every activity. The invariant is kept. |
| `GraphOps.DateRange` | crates/schedule_hypergraph/src/schedule_graph.rs:295-296 | `count` consecutive ascending dates from `start`, and exactly those. |
| `GraphOps.AvailabilityDates` | crates/schedule_hypergraph/src/schedule_graph.rs:294-296 | The dates of a window are exactly start date through finish date inclusive, ascending. There are none when it finishes on an earlier date. |
| `GraphOps.LookupSkillsIff` | crates/schedule_hypergraph/src/schedule_graph.rs:281-285 | The skill lookup loop succeeds iff every skill of the technician is indexed. |
| `GraphOps.LookupDaysIff` | crates/schedule_hypergraph/src/schedule_graph.rs:294-300 | The day lookup loop succeeds iff every listed date is indexed. |
| `GraphOps.TechnicianRejection` | crates/schedule_hypergraph/src/schedule_graph.rs:276-300 | The first failing check, in order: `WorkerDuplicate` iff the id is indexed; then `SkillMissing` iff some skill is unindexed; then `DayMissing` iff some date of the window is unindexed. |
| `GraphOps.AvailableEdgeNodes` | crates/schedule_hypergraph/src/schedule_graph.rs:302-306 | The Available edge lists only existing nodes and the technician node about to be created. |
| `GraphOps.AddTechnician` | crates/schedule_hypergraph/src/schedule_graph.rs:274-311 | Err iff a check fails, with that error and the graph unchanged. Otherwise exactly one Technician node (indexed) and one Available edge are added, and the edge's handle is returned, not the node's. The invariant is kept. |
| `GraphEdges.AssignmentWorkOrderRejection` | crates/schedule_hypergraph/src/schedule_graph.rs:327-329 | The first failing lookup, in order: `WorkerMissing`, `WorkOrderMissing`, `PeriodMissing`; none iff all three keys are indexed. |
| `GraphEdges.AddAssignmentWorkOrder` | crates/schedule_hypergraph/src/schedule_graph.rs:319-338 | Err iff a lookup fails, with the graph unchanged. Otherwise one `Assign(None)` edge [worker, work order, period] is appended, with nodes, index and incidence untouched. The invariant is kept. |
| `GraphEdges.AssignmentWorkOrderNotIncident` | crates/schedule_hypergraph/src/schedule_graph.rs:331-337 | The work-order assignment edge appears in no node's incidence list. |
| `GraphEdges.AddAssignSkillToWorker` | crates/schedule_hypergraph/src/schedule_graph.rs:474-480 | Err iff the worker or the skill is unindexed: `WorkerMissing` first, then `SkillMissing`, with the graph unchanged. Otherwise one HasSkill edge [worker, skill]. The invariant is kept. |
| `GraphEdges.IndexedDates` | crates/schedule_hypergraph/src/schedule_graph.rs:496-506 | The indexed dates in a window, each once, strictly ascending, the order the ordered day index yields them. |
| `GraphEdges.IndexedDatesOfIndexedPeriod` | crates/schedule_hypergraph/src/schedule_graph.rs:496-506 | Once all fourteen days of a period are indexed, the exclusion window is exactly those days in date order. |
| `GraphEdges.ExclusionEdgeNodes` | crates/schedule_hypergraph/src/schedule_graph.rs:508-509 | The exclusion edge lists only existing nodes. |
| `GraphEdges.AddExclusion` | crates/schedule_hypergraph/src/schedule_graph.rs:488-512 | Err iff the work order or the period is unindexed: `WorkOrderMissing` first, then `PeriodMissing`, with the graph unchanged. Otherwise one Exclude edge [wo, period, indexed days start..start+13 ascending]. The invariant is kept. |
| `GraphEdges.AddExclusionRepeatAccepted` | crates/schedule_hypergraph/src/schedule_graph.rs:482-512 | The failure the doc comment promises for an existing exclusion edge does not happen: after an accepted `add_exclusion`, the same call again is accepted and appends an edge equal to the first. |
| `GraphEdges.TechniciansFault` | crates/schedule_hypergraph/src/schedule_graph.rs:360-390 | None iff every technician is indexed and has an incident Available edge covering every day. Otherwise the fault of the first technician that is not: `WorkerMissing` if it is unindexed, `WorkerUnavailable` if it is uncovered. |
| `GraphEdges.FirstActivity` | crates/schedule_hypergraph/src/schedule_graph.rs:406-412 | The first node of an edge that is the requested activity; none iff no node is. |
| `GraphEdges.FindActivity` | crates/schedule_hypergraph/src/schedule_graph.rs:394-414 | The activity search from an indexed work order yields an existing node that is the requested activity. It yields none iff the work order is unindexed or no edge in its incidence list lists the activity. |
| `GraphEdges.FindActivityIffSharedEdge` | crates/schedule_hypergraph/src/schedule_graph.rs:394-414 | In a valid graph the search for an indexed work order finds the activity iff some edge made through `add_edge` lists both the work order and the activity. |
| `GraphEdges.FindActivityIn` | crates/schedule_hypergraph/src/schedule_graph.rs:400-414 | Walking the work order's incidence list, the result is from the first edge that lists the activity, at that edge's first such node. It is an activity with the requested number, and none iff no edge lists it. |
| `GraphEdges.AssignmentActivityRejection` | crates/schedule_hypergraph/src/schedule_graph.rs:355-420 | The first failing check, in order: `DayMissing` iff some day is unindexed; then the first technician's `WorkerMissing`/`WorkerUnavailable`; then `WorkOrderMissing`; then `ActivityMissing`; then `ActivityExceedNumberOfPeople` iff there are more technicians than the activity's people. |
| `GraphEdges.AssignmentEdgeNodes` | crates/schedule_hypergraph/src/schedule_graph.rs:422-424 | The activity assignment edge lists only existing nodes. |
| `GraphEdges.AddAssignmentActivity` | crates/schedule_hypergraph/src/schedule_graph.rs:346-428 | Err iff a check fails, with that error and the graph unchanged. Otherwise one `Assign(Some(window))` edge [activity, technicians, days] is added through `add_edge`. The invariant is kept. |
| `GraphQuery.MarksIffPeriodOrDate` | crates/schedule_hypergraph/src/schedule_graph.rs:453-463 | A node counts toward a period iff it is that period's node, or a day inside the window of the given span that starts on the period's start date. |
| `GraphQuery.MarkCount` | crates/schedule_hypergraph/src/schedule_graph.rs:452-468 | How many nodes of an edge mark the period: at most the edge's length, and positive iff some node is the period or a day inside the window. |
| `GraphQuery.Reported` | crates/schedule_hypergraph/src/schedule_graph.rs:443-468 | An edge is reported iff it is an Assign edge and some node marks the period. |
| `GraphQuery.BlockCount` | crates/schedule_hypergraph/src/schedule_graph.rs:451-468 | The entries one edge contributes are that edge, once per marking node, and no other edge. |
| `GraphQuery.AssignmentsUpToCount` | crates/schedule_hypergraph/src/schedule_graph.rs:443-469 | Over the first `k` edges, the output holds each edge `e < k` exactly as often as it is reported, and no later edge. |
| `GraphQuery.AssignmentsUpToOrdered` | crates/schedule_hypergraph/src/schedule_graph.rs:443-469 | The output lists existing edges in non-decreasing creation order. |
| `GraphQuery.AssignmentsInWindow` | crates/schedule_hypergraph/src/schedule_graph.rs:438-472 | `PeriodMissing` iff no node is the period. Otherwise the edges come in creation order, each exactly as often as it is reported, and an edge is in the output iff it is reported. |
| `GraphQuery.FindAllAssignmentsForPeriod` | crates/schedule_hypergraph/src/schedule_graph.rs:438-472 | As written: `PeriodMissing` iff no node is the period. Otherwise edges come in non-decreasing creation order, each as often as it has counting nodes. An edge is listed iff it is an Assign edge naming the period, or a day from the start to start+12. |
| `GraphQuery.AssignmentsForPeriod` | crates/schedule_hypergraph/src/schedule_graph.rs:438-472 | Corrected: as above (order, multiplicity and membership), with the period's full fourteen days start..start+13 counting. |
| `GraphQuery.QueryFailsIffPeriodUnindexed` | crates/schedule_hypergraph/src/schedule_graph.rs:440-442 | In a valid graph the node scan fails iff the period is not in the period index. |
| `GraphQuery.AssignedWorkOrderReportedOnce` | crates/schedule_hypergraph/src/schedule_graph.rs:807-811 | A work-order assignment made in a valid graph is reported for its period exactly once. |
| `GraphQuery.LastDayMissed` | crates/schedule_hypergraph/src/schedule_graph.rs:460 | Any Assign edge that lists the period's fourteenth day, and no node counting for the query as written, is missing from the query as written and present in the corrected query. |
| `GraphQuery.LastDayExampleValid` | crates/schedule_hypergraph/src/schedule_graph.rs:104-127 | The two-node example graph satisfies the invariant. |
| `GraphQuery.LastDayExampleDisagrees` | crates/schedule_hypergraph/src/schedule_graph.rs:460 | On a concrete valid graph, the query as written omits edge 0, and the corrected query reports it. |
| `GraphQuery.ExclusionNodesMark` | crates/schedule_hypergraph/src/schedule_graph.rs:496-509 | The exclusion node list starts with the work order's node, and every later entry (the period and each day of the window) counts for the period over fourteen days. |
| `GraphQuery.ExclusionDaysCounted` | crates/schedule_hypergraph/src/schedule_graph.rs:488-512 | In the edge that `add_exclusion` appends, the first node is the work order, and every later node (the period and each listed day) counts for the period in the corrected query. |
| `GraphQuery.ExclusionLastDayNotCounted` | crates/schedule_hypergraph/src/schedule_graph.rs:460 | When the period's last day is indexed, the edge that `add_exclusion` appends lists that day, and the query as written does not count it. |
| `GraphProperties.AvailableNodesResolve` | crates/schedule_hypergraph/src/schedule_graph.rs:302-306 | The Available node list is the new node's handle, then the nodes of the skills in ascending order, then the window's days in date order. |
| `GraphProperties.AvailableEdgeResolves` | crates/schedule_hypergraph/src/schedule_graph.rs:744-755 | After `add_technician`, the Available edge's nodes are the technician, its skills and its days, in that order. |
| `GraphProperties.AvailableEdgeIncident` | crates/schedule_hypergraph/src/schedule_graph.rs:757 | After `add_technician`, the technician's incidence list names the Available edge. |
| `GraphProperties.AvailableEdgeCoversWindow` | crates/schedule_hypergraph/src/schedule_graph.rs:365-384 | After `add_technician`, the new Available edge is in the technician's incidence list, and some Day node it lists carries each date of the window. |
| `GraphProperties.IncidentEdgeCovers` | crates/schedule_hypergraph/src/schedule_graph.rs:365-384 | An Available edge in a technician's incidence list that lists a Day node for each requested date makes the technician pass the coverage check. |
| `GraphProperties.TechnicianReadyAfterAdd` | crates/schedule_hypergraph/src/schedule_graph.rs:365-389 | After `add_technician`, the technician passes the availability check of `add_assignment_activity` for any days inside the window. |
| `GraphProperties.AssignmentNodesResolve` | crates/schedule_hypergraph/src/schedule_graph.rs:422-424 | The activity assignment node list resolves to the activity, then the technicians in order, then the days in order. |
| `GraphProperties.AssignmentEdgeResolves` | crates/schedule_hypergraph/src/schedule_graph.rs:1020-1040 | The new Assign edge lists the requested activity (whose people count is at least the number of technicians), then the technicians, then the days, with length 1 + technicians + days. |
| `GraphProperties.LastDayAssignmentMissed` | crates/schedule_hypergraph/src/schedule_graph.rs:346-428 | An accepted `add_assignment_activity` on the period's last day alone makes an edge that the query as written omits, and the corrected query reports. |
| `GraphProperties.AssignmentEdgeIncident` | crates/schedule_hypergraph/src/schedule_graph.rs:1035-1036 | Every node the new activity assignment lists has it in its incidence list. |

## Left out

- The `Postpone` arm of the precedence match (`schedule_graph.rs:225`) is `todo!()`. It cannot be reached, because `activities_relations` yields only `FinishStart`. `ActivityRelation` therefore has only its two other variants.
- Calendar arithmetic is not modelled: dates are unbounded day numbers. So the panic of `checked_add_days(..).unwrap()` at the end of the calendar (`schedule_graph.rs:500`) is not modelled.
- Environment.DateOf: date-times are whole nanoseconds on one axis, chrono's resolution. chrono's leap-second representation, a nanosecond field of one second or more inside the 60th second of a minute, is not modelled: a date-time here is a single integer, and no value of the model stands for a leap second.
- Times of day inside `Assign(Some(..))` are stored and never read. The source does not check that the start is before the finish, and neither does the model.
- Logging, serialisation derives, and the unused separator constant are not modelled.
- The filesystem-driven large-scale test is not modelled.
- `derive_instances.rs` and the strategic algorithm crate are not modelled: every branch body there is `todo!()`.
- `HashMap` versus `BTreeMap` is not modelled. Only the date order of the day index is observable, in `add_exclusion`, and `IndexedDates` models that order.
- The `SkillMissing` lookup inside the activity loop of `add_work_order` cannot fail after the all-skills check. The loop takes the skill's presence as a precondition rather than modelling an error path no input reaches.
- `incidence_list.get(..).ok_or(WorkOrderMissing)` in `add_assignment_activity` cannot fail: an indexed node always has an incidence list. It is not modelled as a separate branch.
- `usize::MAX`, the "no previous activity" sentinel of `add_work_order`, never reaches an edge. The model passes the work-order handle in its place for the first activity, which adds no precedence edge.
- `Aligned`/`WellFormed`, the operations' preconditions, state the bounds every reachable graph keeps. In the source they are implicit: breaking them would be an out-of-range panic.
- Duplicate-key `assert!` in `add_node` becomes a precondition.
  - `AddPeriod` requires that none of the period's days already has a node, because the source panics there.
- Rollback on failure mid-operation: no fallible operation changes the graph before its last check, so there is nothing partial to undo.
- GraphInvariants.AddEdgeValid: covers `add_edge` with every edge type except `Assign(None)`. The invariant recognises the incidence-free push of `add_assignment_work_order` by that edge type. No operation sends an `Assign(None)` edge through `add_edge`; only a unit test of the private primitive does (`schedule_graph.rs:888-890`).
- `TechniciansFault`, `FindActivityIn` and the rest of `add_assignment_activity` read incidence lists. In a graph that is not `Valid` the model follows the lists exactly as stored, as the source does.

## Findings

| source | as written | input that shows it | evidently intended | confidence | as-written member | corrected member |
|---|---|---|---|---|---|---|
| crates/schedule_hypergraph/src/schedule_graph.rs:460 | A day counts for a period only if `start <= d < start + 13`. That covers 13 days, although a period has 14 days (`add_period` creates start..start+13) and `add_exclusion` uses `d <= start + 13`. | `add_period` for the period starting on day 0, which creates `Day(13)`. Then any accepted `add_assignment_activity(technicians, wo, act, days = [13], window)`. The query does not report the new edge (`GraphProperties.LastDayAssignmentMissed`); the smallest graph showing it is `GraphQuery.LastDayExample`. | All fourteen days of the period count, the same window as `add_exclusion`. | not executed | `GraphQuery.FindAllAssignmentsForPeriod` | `GraphQuery.AssignmentsForPeriod` |
