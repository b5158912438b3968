/** What the read operations show. */
module LiveViews {
  import opened Wrappers
  import opened Orders
  import opened Events
  import opened GraphLattices
  import opened ProtoConvert
  import opened StoreSpec
  import opened Growth
  import opened WireFormat
  import C = Convergence
  import Retries
  import Proto
  import N = NodeLattices
  import E = EdgeLattices
  import P = Provenances

  // ---- The live view is the main graph minus the tombstones ----

  predicate SameEdge(e: Proto.Edge, k: E.EdgeKey) {
    e.source == k.source && e.target == k.target && e.typeNumber == EdgeTypeToNumber(k.edgeType)
  }

  function ListedNodeAlive(inc: IncidentState): Proto.Node -> bool {
    (n: Proto.Node) => n.id !in inc.nodeTombstones
  }

  function ListedEdgeAlive(inc: IncidentState): Proto.Edge -> bool {
    (e: Proto.Edge) =>
      && e.source !in inc.nodeTombstones && e.target !in inc.nodeTombstones
      && forall k | k in inc.edgeTombstones :: !SameEdge(e, k)
  }

  lemma {:induction false} FilterBeforeListingNodes(nodes: NodeMap, ids: seq<string>, inc: IncidentState)
    requires forall id | id in ids :: id in nodes
    ensures ListNodes(nodes, Filter(ids, NodeAlive(inc))) == Filter(ListNodes(nodes, ids), ListedNodeAlive(inc))
  {
    hide DomainNodeToProto, ListNodes;
    if ids == [] {
      assert ListNodes(nodes, ids) == [];
    } else {
      var n := DomainNodeToProto(ids[0], nodes[ids[0]]);
      assert n.id == ids[0] by { NodeKeepsId(ids[0], nodes[ids[0]]); }
      FilterBeforeListingNodes(nodes, ids[1..], inc);
      assert ListNodes(nodes, ids) == [n] + ListNodes(nodes, ids[1..]);
      var rest := Filter(ids[1..], NodeAlive(inc));
      assert ListNodes(nodes, [ids[0]] + rest) == [n] + ListNodes(nodes, rest);
    }
  }

  lemma NodeKeepsId(id: string, n: N.NodeLattice)
    ensures DomainNodeToProto(id, n).id == id
  {
  }

  lemma EdgeKeepsKey(k: E.EdgeKey, e: E.EdgeLattice)
    ensures SameEdge(DomainEdgeToProto(k, e), k)
    ensures forall k' :: SameEdge(DomainEdgeToProto(k, e), k') ==> k' == k
  {
  }

  lemma ListedEdgeAliveIffKeyAlive(k: E.EdgeKey, e: E.EdgeLattice, inc: IncidentState)
    ensures ListedEdgeAlive(inc)(DomainEdgeToProto(k, e)) <==> EdgeAlive(inc)(k)
  {
    EdgeKeepsKey(k, e);
    hide DomainEdgeToProto;
    assert SameEdge(DomainEdgeToProto(k, e), k);
  }

  lemma {:induction false} FilterBeforeListingEdges(edges: EdgeMap, ks: seq<E.EdgeKey>, inc: IncidentState)
    requires forall k | k in ks :: k in edges
    ensures ListEdges(edges, Filter(ks, EdgeAlive(inc))) == Filter(ListEdges(edges, ks), ListedEdgeAlive(inc))
  {
    hide DomainEdgeToProto, ListEdges, EdgeAlive, ListedEdgeAlive;
    if ks == [] {
      assert ListEdges(edges, ks) == [];
    } else {
      var e := DomainEdgeToProto(ks[0], edges[ks[0]]);
      ListedEdgeAliveIffKeyAlive(ks[0], edges[ks[0]], inc);
      FilterBeforeListingEdges(edges, ks[1..], inc);
      assert ListEdges(edges, ks) == [e] + ListEdges(edges, ks[1..]);
      var rest := Filter(ks[1..], EdgeAlive(inc));
      assert ListEdges(edges, [ks[0]] + rest) == [e] + ListEdges(edges, rest);
    }
  }

  /**
   The live view of an incident is the main graph listing with the tombstoned nodes, the tombstoned
   edges and the edges touching a tombstoned node struck out, everything else in place.
   */
  lemma LiveIsMainMinusTombstones(s: State, incident: string)
    requires incident in s.incidents
    ensures var inc, main := s.incidents[incident], MainGraph(s);
            LiveView(s, incident) ==
            Ok(Proto.CausalGraph(Filter(main.nodes, ListedNodeAlive(inc)), Filter(main.edges, ListedEdgeAlive(inc))))
  {
    hide Filter, ListNodes, ListEdges, ListedEdgeAlive, ListedNodeAlive, EdgeAlive, NodeAlive;
    var inc := s.incidents[incident];
    FilterBeforeListingNodes(s.nodes, SortedStrings(s.nodes.Keys), inc);
    FilterBeforeListingEdges(s.edges, E.SortedEdgeKeys(s.edges.Keys), inc);
  }

  /**
   The live view of a known incident lists exactly the live ids and keys, each once: nodes by id, edges
   by source, target and type number. An unknown incident has no live view.
   */
  lemma LiveViewIsExact(s: State, incident: string)
    ensures incident !in s.incidents ==> LiveView(s, incident) == Err(IncidentNotFound(incident))
    ensures incident in s.incidents ==>
              var inc := s.incidents[incident];
              var ids, ks := LiveNodeIds(s, inc), LiveEdgeKeys(s, inc);
              && (forall i, j | 0 <= i < j < |ids| :: Before(ids[i], ids[j]))
              && (forall id :: id in ids <==> id in s.nodes && id !in inc.nodeTombstones)
              && (forall i, j | 0 <= i < j < |ks| :: KeyBefore(ks[i], ks[j]))
              && (forall k :: k in ks <==>
                    && k in s.edges && k !in inc.edgeTombstones
                    && k.source !in inc.nodeTombstones && k.target !in inc.nodeTombstones)
              && LiveView(s, incident) == Ok(Proto.CausalGraph(ListNodes(s.nodes, ids), ListEdges(s.edges, ks)))
  {
    if incident in s.incidents {
      LiveListsAreSorted(s, s.incidents[incident]);
    }
    hide ListNodes, ListEdges, Before, KeyBefore, Filter;
  }

  lemma LiveListsAreSorted(s: State, inc: IncidentState)
    ensures var ids, ks := LiveNodeIds(s, inc), LiveEdgeKeys(s, inc);
            && (forall i, j | 0 <= i < j < |ids| :: Before(ids[i], ids[j]))
            && (forall i, j | 0 <= i < j < |ks| :: KeyBefore(ks[i], ks[j]))
  {
    StringOrder();
    E.EdgeKeyOrder();
    hide TotalOrder, StringLeq, E.EdgeKeyLeq, Sorted, StrictlySorted, Filter, Before, KeyBefore;
    SortedIsSorted(s.nodes.Keys, StringLeq);
    SortedIsSorted(s.edges.Keys, E.EdgeKeyLeq);
    FilterKeepsSorted(SortedStrings(s.nodes.Keys), NodeAlive(inc), StringLeq);
    FilterKeepsSorted(E.SortedEdgeKeys(s.edges.Keys), EdgeAlive(inc), E.EdgeKeyLeq);
    SortedOnWire(LiveNodeIds(s, inc), LiveEdgeKeys(s, inc));
  }

  ghost predicate NoDanglingEdge(s: State) {
    forall k | k in s.edges :: k.source in s.nodes && k.target in s.nodes
  }

  ghost predicate ShowsNode(g: Proto.CausalGraph, id: string) {
    exists n :: n in g.nodes && n.id == id
  }

  lemma LiveIdIsShown(s: State, incident: string, id: string)
    requires incident in s.incidents && id in LiveNodeIds(s, s.incidents[incident])
    ensures ShowsNode(LiveView(s, incident).value, id)
  {
    var ids, view := LiveNodeIds(s, s.incidents[incident]), LiveView(s, incident).value;
    assert view.nodes == ListNodes(s.nodes, ids);
    hide LiveNodeIds, LiveView, DomainNodeToProto;
    var i :| 0 <= i < |ids| && ids[i] == id;
    NodeKeepsId(id, s.nodes[id]);
    assert view.nodes[i] in view.nodes && view.nodes[i].id == id;
  }

  lemma ShownEdgeIsLive(s: State, incident: string, e: Proto.Edge) returns (k: E.EdgeKey)
    requires incident in s.incidents && e in LiveView(s, incident).value.edges
    ensures k in LiveEdgeKeys(s, s.incidents[incident]) && SameEdge(e, k)
  {
    var ks, view := LiveEdgeKeys(s, s.incidents[incident]), LiveView(s, incident).value;
    assert view.edges == ListEdges(s.edges, ks);
    hide LiveEdgeKeys, LiveView, DomainEdgeToProto;
    var i :| 0 <= i < |ks| && e == view.edges[i];
    k := ks[i];
    assert k in ks;
    EdgeKeepsKey(k, s.edges[k]);
  }

  lemma ListedNodeIsStored(nodes: NodeMap, ids: seq<string>, n: Proto.Node)
    requires (forall id | id in ids :: id in nodes) && n in ListNodes(nodes, ids)
    ensures n.id in nodes
  {
    hide ListNodes, DomainNodeToProto;
    var i :| 0 <= i < |ids| && n == ListNodes(nodes, ids)[i];
    assert ids[i] in ids;
    NodeKeepsId(ids[i], nodes[ids[i]]);
  }

  lemma ShownNodeIsStored(s: State, incident: string, id: string)
    requires incident in s.incidents && ShowsNode(LiveView(s, incident).value, id)
    ensures id in s.nodes
  {
    hide LiveNodeIds, ListNodes, ListEdges;
    var n :| n in LiveView(s, incident).value.nodes && n.id == id;
    ListedNodeIsStored(s.nodes, LiveNodeIds(s, s.incidents[incident]), n);
  }

  lemma LiveEdgeIsShown(s: State, incident: string, k: E.EdgeKey) returns (e: Proto.Edge)
    requires incident in s.incidents && k in LiveEdgeKeys(s, s.incidents[incident])
    ensures e in LiveView(s, incident).value.edges && SameEdge(e, k)
  {
    var ks, view := LiveEdgeKeys(s, s.incidents[incident]), LiveView(s, incident).value;
    assert view.edges == ListEdges(s.edges, ks);
    hide LiveEdgeKeys, LiveView, DomainEdgeToProto;
    var i :| 0 <= i < |ks| && ks[i] == k;
    e := view.edges[i];
    EdgeKeepsKey(k, s.edges[k]);
  }

  /** Every edge of the view has both of its ends among the nodes of the view. */
  ghost predicate IsClosed(g: Proto.CausalGraph) {
    forall e | e in g.edges :: ShowsNode(g, e.source) && ShowsNode(g, e.target)
  }

  /**
   A live view has a dangling edge exactly when a live edge already dangles in the main graph; so in
   a graph without dangling edges no live edge dangles, whatever is tombstoned.
   */
  lemma LiveViewIsClosedIff(s: State, incident: string)
    requires incident in s.incidents
    ensures IsClosed(LiveView(s, incident).value) <==>
            forall k | k in LiveEdgeKeys(s, s.incidents[incident]) :: k.source in s.nodes && k.target in s.nodes
    ensures NoDanglingEdge(s) ==> IsClosed(LiveView(s, incident).value)
  {
    var inc, view := s.incidents[incident], LiveView(s, incident).value;
    var ks := LiveEdgeKeys(s, inc);
    assert forall k | k in ks :: k in s.edges;
    hide LiveNodeIds, LiveEdgeKeys, LiveView, ShowsNode;
    if forall k | k in ks :: k.source in s.nodes && k.target in s.nodes {
      forall e | e in view.edges ensures ShowsNode(view, e.source) && ShowsNode(view, e.target) {
        var k := ShownEdgeIsLive(s, incident, e);
        LiveIdIsShown(s, incident, k.source);
        LiveIdIsShown(s, incident, k.target);
      }
    }
    if IsClosed(view) {
      forall k | k in ks ensures k.source in s.nodes && k.target in s.nodes {
        var e := LiveEdgeIsShown(s, incident, k);
        ShownNodeIsStored(s, incident, k.source);
        ShownNodeIsStored(s, incident, k.target);
      }
    }
  }

  /** A larger graph shows more, more tombstones show less. */
  lemma LiveViewIsMonotone(s: State, t: State, a: IncidentState, b: IncidentState)
    requires s.nodes.Keys <= t.nodes.Keys && s.edges.Keys <= t.edges.Keys
    requires b.nodeTombstones <= a.nodeTombstones && b.edgeTombstones <= a.edgeTombstones
    ensures forall id | id in LiveNodeIds(s, a) :: id in LiveNodeIds(t, b)
    ensures forall k | k in LiveEdgeKeys(s, a) :: k in LiveEdgeKeys(t, b)
  {
    hide LiveNodeIds, LiveEdgeKeys;
    assert forall id | id in LiveNodeIds(s, a) :: id in t.nodes.Keys;
    assert forall k | k in LiveEdgeKeys(s, a) :: k in t.edges.Keys;
  }

  // ---- Permanent elimination ----

  /**
   Once a node is tombstoned for an incident, no later live view of that incident shows it or an
   edge touching it, whenever it is first proposed and whatever else happens.
   */
  lemma NodeEliminationIsPermanent(s: State, later: seq<Op>, incident: string, id: string)
    requires incident in s.incidents && id in s.incidents[incident].nodeTombstones
    ensures LiveView(Run(s, later), incident).Ok?
    ensures forall n | n in LiveView(Run(s, later), incident).value.nodes :: n.id != id
    ensures forall e | e in LiveView(Run(s, later), incident).value.edges :: e.source != id && e.target != id
  {
    var t := Run(s, later);
    Retries.RunGrows(s, later);
    assert IncidentGrows(s.incidents[incident], t.incidents[incident]);
    hide Run;
    LiveIsMainMinusTombstones(t, incident);
    hide Filter, LiveView, MainGraph;
  }

  /** Likewise for a tombstoned edge. */
  lemma EdgeEliminationIsPermanent(s: State, later: seq<Op>, incident: string, k: E.EdgeKey)
    requires incident in s.incidents && k in s.incidents[incident].edgeTombstones
    ensures LiveView(Run(s, later), incident).Ok?
    ensures forall e | e in LiveView(Run(s, later), incident).value.edges :: !SameEdge(e, k)
  {
    var t := Run(s, later);
    Retries.RunGrows(s, later);
    assert IncidentGrows(s.incidents[incident], t.incidents[incident]);
    hide Run;
    LiveIsMainMinusTombstones(t, incident);
    hide Filter, LiveView, MainGraph;
  }

  // ---- Converged stores answer alike ----

  ghost predicate SameNodeListed(a: Proto.Node, b: Proto.Node) {
    && a.id == b.id && a.typeNumber == b.typeNumber && a.nodeLabel == b.nodeLabel
    && a.hypothetical == b.hypothetical
    && SameProvenance(a.provenance, b.provenance)
  }

  ghost predicate SameEdgeListed(a: Proto.Edge, b: Proto.Edge) {
    && a.source == b.source && a.target == b.target && a.typeNumber == b.typeNumber
    && SameProvenance(a.provenance, b.provenance)
  }

  /** The same list of nodes and the same list of edges, up to timestamps. */
  ghost predicate SameGraph(g: Proto.CausalGraph, h: Proto.CausalGraph) {
    && |g.nodes| == |h.nodes| && (forall i | 0 <= i < |g.nodes| :: SameNodeListed(g.nodes[i], h.nodes[i]))
    && |g.edges| == |h.edges| && (forall i | 0 <= i < |g.edges| :: SameEdgeListed(g.edges[i], h.edges[i]))
  }

  lemma SameIdentitiesListAlike(a: P.ProvSet, b: P.ProvSet)
    requires a.Keys == b.Keys
    ensures SameProvenance(ListProvenance(a), ListProvenance(b))
  {
    P.KeyOrder();
  }

  lemma SameNodesListAlike(id: string, a: N.NodeLattice, b: N.NodeLattice)
    requires N.Same(a, b)
    ensures SameNodeListed(DomainNodeToProto(id, a), DomainNodeToProto(id, b))
  {
    SameIdentitiesListAlike(a.provenance, b.provenance);
  }

  lemma SameEdgesListAlike(k: E.EdgeKey, a: E.EdgeLattice, b: E.EdgeLattice)
    requires E.Same(a, b)
    ensures SameEdgeListed(DomainEdgeToProto(k, a), DomainEdgeToProto(k, b))
  {
    SameIdentitiesListAlike(a.provenance, b.provenance);
  }

  lemma ListingsAgree(s: State, t: State, ids: seq<string>, ks: seq<E.EdgeKey>)
    requires SameNodes(s.nodes, t.nodes) && SameEdges(s.edges, t.edges)
    requires (forall id | id in ids :: id in s.nodes) && (forall k | k in ks :: k in s.edges)
    ensures forall id | id in ids :: id in t.nodes
    ensures forall k | k in ks :: k in t.edges
    ensures SameGraph(Proto.CausalGraph(ListNodes(s.nodes, ids), ListEdges(s.edges, ks)),
                      Proto.CausalGraph(ListNodes(t.nodes, ids), ListEdges(t.edges, ks)))
  {
    hide DomainNodeToProto, DomainEdgeToProto, SameNodeListed, SameEdgeListed;
    forall id | id in ids ensures id in t.nodes { assert id in t.nodes.Keys; }
    forall k | k in ks ensures k in t.edges { assert k in t.edges.Keys; }
    forall i | 0 <= i < |ids|
      ensures SameNodeListed(ListNodes(s.nodes, ids)[i], ListNodes(t.nodes, ids)[i])
    {
      assert ids[i] in ids;
      SameNodesListAlike(ids[i], s.nodes[ids[i]], t.nodes[ids[i]]);
    }
    forall i | 0 <= i < |ks|
      ensures SameEdgeListed(ListEdges(s.edges, ks)[i], ListEdges(t.edges, ks)[i])
    {
      assert ks[i] in ks;
      SameEdgesListAlike(ks[i], s.edges[ks[i]], t.edges[ks[i]]);
    }
  }

  /**
   States equal up to timestamps answer every read alike: the same lists in the same order, up to
   timestamps, and exactly the same tombstones.
   */
  lemma ReadsAgree(s: State, t: State, incident: string)
    requires C.SameState(s, t)
    ensures SameGraph(MainGraph(s), MainGraph(t))
    ensures LiveView(s, incident).Ok? <==> LiveView(t, incident).Ok?
    ensures LiveView(s, incident).Ok? ==> SameGraph(LiveView(s, incident).value, LiveView(t, incident).value)
    ensures Tombstones(s, incident) == Tombstones(t, incident)
  {
    hide SameGraph, Filter, ListNodes, ListEdges, ListEntries, Sorted;
    ListingsAgree(s, t, SortedStrings(s.nodes.Keys), E.SortedEdgeKeys(s.edges.Keys));
    assert incident in s.incidents.Keys <==> incident in t.incidents.Keys;
    if incident in s.incidents {
      var a, b := s.incidents[incident], t.incidents[incident];
      assert C.SameIncident(a, b);
      assert NodeAlive(a) == NodeAlive(b) && EdgeAlive(a) == EdgeAlive(b) by { SameIncidentsFilterAlike(a, b); }
      ListingsAgree(s, t, LiveNodeIds(s, a), LiveEdgeKeys(s, a));
    }
  }

  lemma SameIncidentsFilterAlike(a: IncidentState, b: IncidentState)
    requires C.SameIncident(a, b)
    ensures NodeAlive(a) == NodeAlive(b) && EdgeAlive(a) == EdgeAlive(b)
  {
  }
}
