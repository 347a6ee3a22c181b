/**
 * The representation invariant `Valid` of the scheduling hypergraph: the
 * reference definition of the incidence lists, and the facts that the empty
 * graph is valid and that both primitives, and the incidence-bypassing push
 * of `add_assignment_work_order`, keep it.
 */
module GraphInvariants {
  import opened Results
  import opened Sequences
  import opened GraphState

  /** `ScheduleGraph::new` starts valid. */
  lemma EmptyValid()
    ensures Valid(Empty)
  {
  }

  /** Appending one edge extends every node's reference incidence list by that edge's occurrences of it. */
  lemma IncidenceOfSnoc(edges: seq<HyperEdge>, edge: HyperEdge, n: NodeIndex)
    ensures IncidenceOf(edges + [edge], n)
         == IncidenceOf(edges, n) + (if Bypass(edge) then [] else Repeat<EdgeIndex>(|edges|, Count(edge.nodes, n)))
  {
    assert (edges + [edge])[..|edges|] == edges;
  }

  /** A node that no edge names has an empty reference incidence list. */
  lemma {:induction false} IncidenceOfFresh(edges: seq<HyperEdge>, n: NodeIndex)
    requires forall e :: 0 <= e < |edges| ==> AllBelow(edges[e].nodes, n)
    ensures IncidenceOf(edges, n) == []
  {
    if edges != [] {
      var last := |edges| - 1;
      IncidenceOfFresh(edges[..last], n);
      assert n !in edges[last].nodes;
    }
  }

  /**
   * Soundness and completeness of the reference incidence list: edge `e`
   * occurs in node `n`'s list exactly as often as `n` occurs in `e`, unless
   * `e` is a bypass edge, which never occurs.
   */
  lemma {:induction false} IncidenceOfCount(edges: seq<HyperEdge>, n: NodeIndex, e: EdgeIndex)
    ensures Count(IncidenceOf(edges, n), e)
         == if e < |edges| && !Bypass(edges[e]) then Count(edges[e].nodes, n) else 0
  {
    if edges != [] {
      var last := |edges| - 1;
      var init := edges[..last];
      var before := IncidenceOf(init, n);
      var tail: seq<EdgeIndex> := if Bypass(edges[last]) then [] else Repeat<EdgeIndex>(last, Count(edges[last].nodes, n));
      assert IncidenceOf(edges, n) == before + tail;
      CountAppend<EdgeIndex>(before, tail, e);
      assert Count(tail, e) == if e == last && !Bypass(edges[last]) then Count(edges[last].nodes, n) else 0 by {
        if Bypass(edges[last]) {
          assert tail == [];
        } else {
          CountRepeat<EdgeIndex>(last, Count(edges[last].nodes, n), e);
        }
      }
      IncidenceOfCount(init, n, e);
      if e < last {
        assert init[e] == edges[e];
      }
    }
  }

  /** The reference incidence list names existing edges in creation order. */
  lemma {:induction false} IncidenceOfOrdered(edges: seq<HyperEdge>, n: NodeIndex)
    ensures AllBelow(IncidenceOf(edges, n), |edges|)
    ensures NonDecreasing(IncidenceOf(edges, n))
  {
    if edges != [] {
      var last := |edges| - 1;
      IncidenceOfOrdered(edges[..last], n);
    }
  }

  /** `add_node` with a fresh key keeps the graph valid. */
  lemma AddNodeValid(g: ScheduleGraph, node: Node)
    requires Keyed(node) ==> node !in g.index
    ensures Valid(g) ==> Valid(AddNode(g, node).1)
  {
    if !Valid(g) {
      return;
    }
    forall h | 0 <= h < |g.nodes| && Keyed(g.nodes[h])
      ensures g.nodes[h] != node
    {
      assert g.nodes[h] in g.index;
    }
    IncidenceOfFresh(g.hyperedges, |g.nodes|);
  }

  /** `add_edge` with existing nodes and a recorded edge kind keeps the graph valid. */
  lemma AddEdgeValid(g: ScheduleGraph, edgeType: EdgeType, ns: seq<NodeIndex>)
    requires AllBelow(ns, |g.nodes|) && !Bypass(HyperEdge(edgeType, ns))
    requires |g.incidence| == |g.nodes|
    ensures Valid(g) ==> Valid(AddEdge(g, edgeType, ns).1)
  {
    if !Valid(g) {
      return;
    }
    var r := AddEdge(g, edgeType, ns);
    forall n: NodeIndex | n < |g.nodes|
      ensures r.1.incidence[n] == IncidenceOf(r.1.hyperedges, n)
    {
      assert g.incidence[n] == IncidenceOf(g.hyperedges, n);
      IncidenceOfSnoc(g.hyperedges, HyperEdge(edgeType, ns), n);
    }
  }

  /**
   * Pushing an `Assign(None)` edge without touching the incidence lists, as
   * `add_assignment_work_order` does, keeps the graph valid: the reference
   * definition leaves such edges out.
   */
  lemma PushBypassValid(g: ScheduleGraph, ns: seq<NodeIndex>)
    ensures Valid(g) && AllBelow(ns, |g.nodes|) ==> Valid(g.(hyperedges := g.hyperedges + [HyperEdge(Assign(None), ns)]))
  {
    if !Valid(g) || !AllBelow(ns, |g.nodes|) {
      return;
    }
    var r := g.(hyperedges := g.hyperedges + [HyperEdge(Assign(None), ns)]);
    forall n: NodeIndex | n < |g.nodes|
      ensures r.incidence[n] == IncidenceOf(r.hyperedges, n)
    {
      IncidenceOfSnoc(g.hyperedges, HyperEdge(Assign(None), ns), n);
    }
  }

  /** In a valid graph every incidence entry names a recorded edge that lists the node. */
  lemma IncidenceSound(g: ScheduleGraph, n: NodeIndex, k: nat)
    requires Valid(g) && n < |g.nodes| && k < |g.incidence[n]|
    ensures g.incidence[n][k] < |g.hyperedges|
    ensures !Bypass(g.hyperedges[g.incidence[n][k]]) && n in g.hyperedges[g.incidence[n][k]].nodes
  {
    var e := g.incidence[n][k];
    assert e in IncidenceOf(g.hyperedges, n);
    IncidenceOfCount(g.hyperedges, n, e);
  }

  /** In a valid graph every recorded edge is in the incidence list of each node it lists, once per occurrence. */
  lemma IncidenceComplete(g: ScheduleGraph, e: EdgeIndex, n: NodeIndex)
    requires Valid(g) && e < |g.hyperedges| && !Bypass(g.hyperedges[e]) && n < |g.nodes|
    ensures Count(g.incidence[n], e) == Count(g.hyperedges[e].nodes, n)
    ensures n in g.hyperedges[e].nodes ==> e in g.incidence[n]
  {
    IncidenceOfCount(g.hyperedges, n, e);
  }

  /** In a valid graph no keyed node appears twice: one day, period, skill, worker or work order per node. */
  lemma KeyedNodesDistinct(g: ScheduleGraph, i: NodeIndex, j: NodeIndex)
    requires Valid(g) && i < j < |g.nodes| && Keyed(g.nodes[i])
    ensures g.nodes[i] != g.nodes[j]
  {
    assert g.index[g.nodes[i]] == i;
  }

  /** In a valid graph a key is present in the index exactly when a node carrying it exists. */
  lemma IndexedIffPresent(g: ScheduleGraph, m: Node)
    requires Valid(g) && Keyed(m)
    ensures m in g.index <==> m in g.nodes
  {
    if m in g.nodes {
      var h :| 0 <= h < |g.nodes| && g.nodes[h] == m;
    }
  }

  /** In a valid graph every incidence list names existing edges in creation order. */
  lemma IncidenceOrdered(g: ScheduleGraph, n: NodeIndex)
    requires Valid(g) && n < |g.nodes|
    ensures AllBelow(g.incidence[n], |g.hyperedges|)
    ensures NonDecreasing(g.incidence[n])
  {
    IncidenceOfOrdered(g.hyperedges, n);
  }

  /** In a valid graph the handles looked up for indexed keys are the nodes carrying those keys. */
  lemma HandlesResolve(g: ScheduleGraph, keys: seq<Node>)
    requires Valid(g) && forall i :: 0 <= i < |keys| ==> keys[i] in g.index
    ensures forall i :: 0 <= i < |keys| ==> Handles(g, keys)[i] < |g.nodes| && g.nodes[Handles(g, keys)[i]] == keys[i]
  {
  }
}
