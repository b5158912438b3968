/** Exporting a store's graph and merging the export somewhere: into an empty store, into itself, into a replica. */
module Snapshots {
  import opened Wrappers
  import opened Orders
  import opened Events
  import opened GraphLattices
  import opened Growth
  import opened ProtoConvert
  import opened StoreSpec
  import A = Absorption
  import Proto
  import N = NodeLattices
  import E = EdgeLattices

  /** The main graph of a store, as a request. */
  function Export(s: State): Proto.HypothesisDelta {
    Proto.HypothesisDelta(MainGraph(s).nodes, MainGraph(s).edges)
  }

  function Import(s: State, from: State): Op {
    MergeHypothesis(Export(from))
  }

  // ---- What an export unpacks to ----

  ghost predicate Listable(nodes: NodeMap, ids: seq<string>) {
    && (forall id | id in ids :: id in nodes && !nodes[id].HasConflict())
    && (forall i, j | 0 <= i < j < |ids| :: ids[i] != ids[j])
  }

  ghost predicate EdgesListable(edges: EdgeMap, ks: seq<E.EdgeKey>) {
    && (forall k | k in ks :: k in edges)
    && (forall i, j | 0 <= i < j < |ks| :: ks[i] != ks[j])
  }

  ghost function NodeEntries(nodes: NodeMap, ids: seq<string>): (es: seq<Event>)
    requires Listable(nodes, ids)
    ensures |es| == |ids|
    ensures forall i | 0 <= i < |ids| :: es[i] == PutNode(ids[i], nodes[ids[i]])
  {
    seq(|ids|, i requires 0 <= i < |ids| => PutNode(ids[i], nodes[ids[i]]))
  }

  ghost function EdgeEntries(edges: EdgeMap, ks: seq<E.EdgeKey>): (es: seq<Event>)
    requires EdgesListable(edges, ks)
    ensures |es| == |ks|
    ensures forall i | 0 <= i < |ks| :: es[i] == PutEdge(ks[i], edges[ks[i]])
  {
    seq(|ks|, i requires 0 <= i < |ks| => PutEdge(ks[i], edges[ks[i]]))
  }

  lemma ExportIsListable(s: State)
    requires NoStoredTop(s)
    ensures Listable(s.nodes, SortedStrings(s.nodes.Keys))
    ensures EdgesListable(s.edges, E.SortedEdgeKeys(s.edges.Keys))
  {
    StringOrder();
    E.EdgeKeyOrder();
    hide TotalOrder, StringLeq, E.EdgeKeyLeq, Sorted;
    SortedIsSorted(s.nodes.Keys, StringLeq);
    SortedIsSorted(s.edges.Keys, E.EdgeKeyLeq);
  }

  lemma ExportedNodeConverts(id: string, n: N.NodeLattice)
    requires !n.HasConflict()
    ensures NodeConversion(DomainNodeToProto(id, n)) == Ok(PutNode(id, n))
  {
    hide ProtoNodeToDomain, DomainNodeToProto;
    NodeRoundTrip(id, n);
  }

  lemma ExportedEdgeConverts(k: E.EdgeKey, e: E.EdgeLattice)
    ensures EdgeConversion(DomainEdgeToProto(k, e)) == Ok(PutEdge(k, e))
  {
    hide ProtoEdgeToDomain, DomainEdgeToProto;
    EdgeRoundTrip(k, e);
  }

  lemma PlanOfExport(s: State)
    ensures Plan(MergeHypothesis(Export(s))) ==
            NodePlan(ListNodes(s.nodes, SortedStrings(s.nodes.Keys)))
            + EdgePlan(ListEdges(s.edges, E.SortedEdgeKeys(s.edges.Keys)))
  {
  }

  /** Every entry of an export converts back to what was stored, timestamps included. */
  lemma ExportUnpacks(s: State)
    returns (ids: seq<string>, ks: seq<E.EdgeKey>, es: seq<Event>, ls: seq<Event>)
    requires NoStoredTop(s)
    ensures ids == SortedStrings(s.nodes.Keys) && ks == E.SortedEdgeKeys(s.edges.Keys)
    ensures Listable(s.nodes, ids) && EdgesListable(s.edges, ks)
    ensures es == NodeEntries(s.nodes, ids) && ls == EdgeEntries(s.edges, ks)
    ensures Restrict(s.nodes, ids) == s.nodes && Restrict(s.edges, ks) == s.edges
    ensures Prefix(Plan(MergeHypothesis(Export(s)))) == es + ls
    ensures Failure(Plan(MergeHypothesis(Export(s)))) == None
  {
    hide SortedStrings, E.SortedEdgeKeys, Plan, NodePlan, EdgePlan, Prefix, Failure, ListNodes, ListEdges;
    hide NodeConversion, EdgeConversion, DomainEdgeToProto, DomainNodeToProto, Export, NodeEntries, EdgeEntries;
    ids, ks := SortedStrings(s.nodes.Keys), E.SortedEdgeKeys(s.edges.Keys);
    ExportIsListable(s);
    es, ls := NodeEntries(s.nodes, ids), EdgeEntries(s.edges, ks);
    var nodePlan, edgePlan := NodePlan(ListNodes(s.nodes, ids)), EdgePlan(ListEdges(s.edges, ks));
    PlanOfExport(s);
    forall i | 0 <= i < |es| ensures nodePlan[i] == Ok(es[i]) {
      ListedNode(s, ids, i);
    }
    forall i | 0 <= i < |ls| ensures edgePlan[i] == Ok(ls[i]) {
      ListedEdge(s, ks, i);
    }
    PlanUnpacks(nodePlan, edgePlan, es, ls);
    RestrictToAll(s.nodes, ids);
    RestrictToAll(s.edges, ks);
  }

  lemma PlanUnpacks(nodePlan: seq<Conversion>, edgePlan: seq<Conversion>, es: seq<Event>, ls: seq<Event>)
    requires |nodePlan| == |es| && |edgePlan| == |ls|
    requires forall i | 0 <= i < |es| :: nodePlan[i] == Ok(es[i])
    requires forall i | 0 <= i < |ls| :: edgePlan[i] == Ok(ls[i])
    ensures Prefix(nodePlan + edgePlan) == es + ls && Failure(nodePlan + edgePlan) == None
  {
    hide Prefix, Failure;
    PrefixIsUnique(nodePlan + edgePlan, es + ls);
  }

  lemma RestrictToAll<K(!new), V>(m: map<K, V>, ks: seq<K>)
    requires forall k :: k in ks <==> k in m
    ensures Restrict(m, ks) == m
  {
  }

  lemma ListedEdge(s: State, ks: seq<E.EdgeKey>, i: nat)
    requires i < |ks| && (forall k | k in ks :: k in s.edges)
    ensures EdgeConversion(ListEdges(s.edges, ks)[i]) == Ok(PutEdge(ks[i], s.edges[ks[i]]))
  {
    assert ks[i] in ks;
    hide EdgeConversion, DomainEdgeToProto;
    ExportedEdgeConverts(ks[i], s.edges[ks[i]]);
  }

  lemma ListedNode(s: State, ids: seq<string>, i: nat)
    requires NoStoredTop(s) && i < |ids| && (forall id | id in ids :: id in s.nodes)
    ensures NodeConversion(ListNodes(s.nodes, ids)[i]) == Ok(PutNode(ids[i], s.nodes[ids[i]]))
  {
    assert ids[i] in ids;
    hide NodeConversion, DomainNodeToProto;
    ExportedNodeConverts(ids[i], s.nodes[ids[i]]);
  }

  // ---- Merging such entries into any store ----

  /** What a store makes of another's nodes: joined where they agree, its own where they do not. */
  function Adopt(a: NodeMap, b: NodeMap): NodeMap {
    map id | id in a.Keys + b.Keys ::
      if id !in b then a[id]
      else if id !in a then b[id]
      else if N.Agree(a[id], b[id]) then N.Join(a[id], b[id])
      else a[id]
  }

  function Restrict<K, V>(m: map<K, V>, ks: seq<K>): map<K, V>
    requires forall k | k in ks :: k in m
  {
    map k | k in ks :: m[k]
  }

  lemma AdoptOne(a: NodeMap, b: NodeMap, ids: seq<string>, id: string)
    requires (forall i | i in ids :: i in b) && id in b && id !in ids
    requires forall i | i in a :: !a[i].HasConflict()
    requires forall i | i in b :: !b[i].HasConflict()
    ensures Step(State(Adopt(a, Restrict(b, ids)), map[], map[]), PutNode(id, b[id])).nodes ==
            Adopt(a, Restrict(b, ids + [id]))
  {
    var before, after := Adopt(a, Restrict(b, ids)), Adopt(a, Restrict(b, ids + [id]));
    var x := Step(State(before, map[], map[]), PutNode(id, b[id])).nodes;
    assert forall i :: i in ids + [id] <==> i in ids || i == id;
    assert x.Keys == after.Keys;
    hide N.Join, N.Agree;
    if id in a {
      N.ConflictIsDisagreement(a[id], b[id]);
    }
    forall i | i in x ensures x[i] == after[i] {
      assert i != id ==> x[i] == before[i];
    }
  }

  lemma PutNodeTouchesNodesOnly(s: State, id: string, n: Proposal)
    ensures Step(s, PutNode(id, n)) == State(Step(State(s.nodes, map[], map[]), PutNode(id, n)).nodes, s.edges, s.incidents)
  {
  }

  lemma {:induction false} NodesAdopted(s: State, b: NodeMap, ids: seq<string>)
    requires NoStoredTop(s) && Listable(b, ids) && (forall id | id in b :: !b[id].HasConflict())
    ensures Replay(s, NodeEntries(b, ids)) == State(Adopt(s.nodes, Restrict(b, ids)), s.edges, s.incidents)
  {
    if ids == [] {
      assert NodeEntries(b, ids) == [];
      assert Adopt(s.nodes, Restrict(b, ids)) == s.nodes;
    } else {
      var init, id := ids[..|ids| - 1], ids[|ids| - 1];
      var t := Replay(s, NodeEntries(b, init));
      assert id !in init && ids == init + [id];
      NodesAdopted(s, b, init);
      assert NodeEntries(b, ids) == NodeEntries(b, init) + [PutNode(id, b[id])];
      hide Step, Replay, Adopt, Reports, ReportOf;
      ReplaySnoc(s, NodeEntries(b, init), PutNode(id, b[id]));
      PutNodeTouchesNodesOnly(t, id, b[id]);
      AdoptOne(s.nodes, b, init, id);
    }
  }

  lemma {:induction false} EdgesAdopted(s: State, b: EdgeMap, ks: seq<E.EdgeKey>)
    requires EdgesListable(b, ks)
    ensures Replay(s, EdgeEntries(b, ks)) == State(s.nodes, MergeEdges(s.edges, Restrict(b, ks)), s.incidents)
  {
    if ks == [] {
      assert EdgeEntries(b, ks) == [];
      assert MergeEdges(s.edges, Restrict(b, ks)) == s.edges;
    } else {
      var init, k := ks[..|ks| - 1], ks[|ks| - 1];
      var t := Replay(s, EdgeEntries(b, init));
      assert k !in init && ks == init + [k];
      EdgesAdopted(s, b, init);
      assert EdgeEntries(b, ks) == EdgeEntries(b, init) + [PutEdge(k, b[k])];
      hide Replay, Reports, ReportOf, Step, MergeEdges;
      ReplaySnoc(s, EdgeEntries(b, init), PutEdge(k, b[k]));
      AdoptOneEdge(t, s.edges, b, init, k);
    }
  }

  lemma AdoptOneEdge(t: State, a: EdgeMap, b: EdgeMap, ks: seq<E.EdgeKey>, k: E.EdgeKey)
    requires (forall i | i in ks :: i in b) && k in b && k !in ks
    requires t.edges == MergeEdges(a, Restrict(b, ks))
    ensures Step(t, PutEdge(k, b[k])) == State(t.nodes, MergeEdges(a, Restrict(b, ks + [k])), t.incidents)
  {
    var x, after := Step(t, PutEdge(k, b[k])).edges, MergeEdges(a, Restrict(b, ks + [k]));
    assert forall i :: i in ks + [k] <==> i in ks || i == k;
    assert x.Keys == after.Keys;
    hide E.Join;
    forall i | i in x ensures x[i] == after[i] {
      assert i != k ==> x[i] == t.edges[i];
    }
  }

  /** The state after importing `b` into `a`, in closed form. */
  lemma ImportIsAdoption(a: State, b: State)
    requires NoStoredTop(a) && NoStoredTop(b)
    ensures Perform(a, Import(a, b)) == State(Adopt(a.nodes, b.nodes), MergeEdges(a.edges, b.edges), a.incidents)
  {
    hide *;
    var ids, ks, es, ls := ExportUnpacks(b);
    ImportIsWrite(a, b);
    WriteOutcome(a, MergeHypothesis(Export(b)), es + ls);
    ReplayConcat(a, es, ls);
    NodesAdopted(a, b.nodes, ids);
    EdgesAdopted(Replay(a, es), b.edges, ks);
  }

  lemma ImportIsWrite(a: State, b: State)
    ensures Import(a, b) == MergeHypothesis(Export(b))
    ensures !IsRead(Import(a, b)) && !Missing(a, Import(a, b))
    ensures NoStoredTop(b) ==> forall id | id in b.nodes :: !b.nodes[id].HasConflict()
  {
  }

  // ---- Into an empty store, and back into its own ----

  lemma AdoptFromNothing(b: NodeMap)
    ensures Adopt(map[], b) == b
  {
  }

  lemma AdoptOwn(b: NodeMap)
    ensures Adopt(b, b) == b
  {
    forall id | id in b ensures N.Join(b[id], b[id]) == b[id] {
      N.JoinLaws(b[id], b[id], b[id]);
    }
  }

  /** Merging an export into an empty store rebuilds the graph exactly, timestamps included. */
  lemma RestoreIsExact(s: State)
    requires NoStoredTop(s)
    ensures Perform(EMPTY, Import(EMPTY, s)) == State(s.nodes, s.edges, map[])
  {
    EmptyStore();
    hide *;
    ImportIsAdoption(EMPTY, s);
    AdoptFromNothing(s.nodes);
    MergeEdgesFromNothing(s.edges);
  }

  lemma EmptyStore()
    ensures NoStoredTop(EMPTY) && EMPTY.nodes == map[] && EMPTY.edges == map[] && EMPTY.incidents == map[]
  {
  }

  lemma MergeEdgesFromNothing(b: EdgeMap)
    ensures MergeEdges(map[], b) == b
  {
  }

  /** Merging an export back into the store it came from changes nothing. */
  lemma SelfMergeChangesNothing(s: State)
    requires NoStoredTop(s)
    ensures Perform(s, Import(s, s)) == s
  {
    hide *;
    ImportIsAdoption(s, s);
    AdoptOwn(s.nodes);
    MergeEdgesUnchanged(s.edges, s.edges);
  }

  // ---- What those imports report ----

  function EdgeIds(ks: seq<E.EdgeKey>): (ids: seq<string>)
    ensures |ids| == |ks|
    ensures forall i | 0 <= i < |ks| :: ids[i] == EdgeId(ks[i])
  {
    if ks == [] then [] else EdgeIds(ks[..|ks| - 1]) + [EdgeId(ks[|ks| - 1])]
  }

  /** Every id an export lists, nodes before edges, in listing order. */
  function ExportedIds(s: State): seq<string> {
    SortedStrings(s.nodes.Keys) + EdgeIds(E.SortedEdgeKeys(s.edges.Keys))
  }

  lemma RestoredNodeReport(s: State, ids: seq<string>, i: nat)
    requires NoStoredTop(s) && Listable(s.nodes, ids) && i < |ids|
    ensures Reports(EMPTY, NodeEntries(s.nodes, ids))[i] == Report(Created, ids[i])
  {
    var es := NodeEntries(s.nodes, ids);
    assert es[..i] == NodeEntries(s.nodes, ids[..i]);
    hide Replay, Reports, NodeEntries, Adopt;
    EmptyStore();
    ReportsAt(EMPTY, es, i);
    NodesAdopted(EMPTY, s.nodes, ids[..i]);
    AdoptFromNothing(Restrict(s.nodes, ids[..i]));
  }

  lemma RestoredEdgeReport(t: State, edges: EdgeMap, ks: seq<E.EdgeKey>, i: nat)
    requires t.edges == map[] && EdgesListable(edges, ks) && i < |ks|
    ensures Reports(t, EdgeEntries(edges, ks))[i] == Report(Created, EdgeId(ks[i]))
  {
    var es := EdgeEntries(edges, ks);
    assert es[..i] == EdgeEntries(edges, ks[..i]);
    hide Replay, Reports, EdgeEntries, MergeEdges, EdgeId;
    ReportsAt(t, es, i);
    EdgesAdopted(t, edges, ks[..i]);
    MergeEdgesFromNothing(Restrict(edges, ks[..i]));
  }

  lemma RestoredNodeReports(s: State, ids: seq<string>)
    requires NoStoredTop(s) && Listable(s.nodes, ids)
    ensures AllReport(Reports(EMPTY, NodeEntries(s.nodes, ids)), Created, ids)
  {
    hide Reports, NodeEntries;
    forall i | 0 <= i < |ids| ensures Reports(EMPTY, NodeEntries(s.nodes, ids))[i] == Report(Created, ids[i]) {
      RestoredNodeReport(s, ids, i);
    }
  }

  lemma RestoredEdgeReports(t: State, edges: EdgeMap, ks: seq<E.EdgeKey>)
    requires t.edges == map[] && EdgesListable(edges, ks)
    ensures AllReport(Reports(t, EdgeEntries(edges, ks)), Created, EdgeIds(ks))
  {
    hide Reports, EdgeEntries, EdgeIds, EdgeId;
    forall i | 0 <= i < |ks| ensures Reports(t, EdgeEntries(edges, ks))[i] == Report(Created, EdgeIds(ks)[i]) {
      RestoredEdgeReport(t, edges, ks, i);
    }
  }

  lemma RestoringReports(s: State, ids: seq<string>, ks: seq<E.EdgeKey>)
    requires NoStoredTop(s) && Listable(s.nodes, ids) && EdgesListable(s.edges, ks)
    ensures AllReport(Reports(EMPTY, NodeEntries(s.nodes, ids) + EdgeEntries(s.edges, ks)), Created, ids + EdgeIds(ks))
  {
    EmptyStore();
    assert forall id | id in s.nodes :: !s.nodes[id].HasConflict();
    hide *;
    var es, ls := NodeEntries(s.nodes, ids), EdgeEntries(s.edges, ks);
    ReplayConcat(EMPTY, es, ls);
    NodesAdopted(EMPTY, s.nodes, ids);
    RestoredNodeReports(s, ids);
    RestoredEdgeReports(Replay(EMPTY, es), s.edges, ks);
    AllReportConcat(Reports(EMPTY, es), Reports(Replay(EMPTY, es), ls), Created, ids, EdgeIds(ks));
  }

  lemma StoredNodeIsSettled(s: State, id: string)
    requires NoStoredTop(s) && id in s.nodes
    ensures ReportOf(s, PutNode(id, s.nodes[id])) == Report(Merged, id)
    ensures A.Settled(s, PutNode(id, s.nodes[id]))
  {
    N.ConflictIsDisagreement(s.nodes[id], s.nodes[id]);
  }

  lemma StoredEdgeIsSettled(s: State, k: E.EdgeKey)
    requires k in s.edges
    ensures ReportOf(s, PutEdge(k, s.edges[k])) == Report(Merged, EdgeId(k))
    ensures A.Settled(s, PutEdge(k, s.edges[k]))
  {
  }

  lemma ExportedIdsAre(s: State)
    ensures ExportedIds(s) == SortedStrings(s.nodes.Keys) + EdgeIds(E.SortedEdgeKeys(s.edges.Keys))
  {
  }

  /** Restoring reports every exported id as created and nothing as merged or conflicting. */
  lemma RestoreAnswer(s: State)
    requires NoStoredTop(s)
    ensures Respond(EMPTY, Import(EMPTY, s)) ==
            HypothesisReply(Ok(Proto.HypothesisMergeResult(ExportedIds(s), [], [])))
  {
    hide *;
    var ids, ks, es, ls := ExportUnpacks(s);
    ImportIsWrite(EMPTY, s);
    WriteOutcome(EMPTY, Import(EMPTY, s), es + ls);
    RestoringReports(s, ids, ks);
    ExportedIdsAre(s);
    UniformReports(Reports(EMPTY, es + ls), Created, ExportedIds(s));
    ImportAnswer(EMPTY, s, Reports(EMPTY, es + ls));
  }

  lemma ImportAnswer(a: State, b: State, rs: seq<Report>)
    requires Failure(Plan(Import(a, b))) == None
    ensures WriteResponse(Import(a, b), false, rs) ==
            HypothesisReply(Ok(Proto.HypothesisMergeResult(IdsWith(rs, Created), IdsWith(rs, Merged), ConflictsIn(rs))))
  {
  }

  lemma SelfMergeNodeReports(s: State, ids: seq<string>)
    requires NoStoredTop(s) && Listable(s.nodes, ids)
    ensures Replay(s, NodeEntries(s.nodes, ids)) == s
    ensures AllReport(Reports(s, NodeEntries(s.nodes, ids)), Merged, ids)
  {
    hide Reports, Replay, NodeEntries, ReportOf, A.Settled;
    var es := NodeEntries(s.nodes, ids);
    forall i | 0 <= i < |es| ensures A.Settled(s, es[i]) && ReportOf(s, es[i]) == Report(Merged, ids[i]) {
      assert ids[i] in ids;
      StoredNodeIsSettled(s, ids[i]);
    }
    A.SettledBatchIsNoOp(s, es);
  }

  lemma SelfMergeEdgeReports(s: State, ks: seq<E.EdgeKey>)
    requires NoStoredTop(s) && EdgesListable(s.edges, ks)
    ensures AllReport(Reports(s, EdgeEntries(s.edges, ks)), Merged, EdgeIds(ks))
  {
    hide Reports, Replay, EdgeEntries, ReportOf, EdgeIds, EdgeId, A.Settled;
    var es := EdgeEntries(s.edges, ks);
    forall i | 0 <= i < |es| ensures A.Settled(s, es[i]) && ReportOf(s, es[i]) == Report(Merged, EdgeIds(ks)[i]) {
      assert ks[i] in ks;
      StoredEdgeIsSettled(s, ks[i]);
    }
    A.SettledBatchIsNoOp(s, es);
  }

  lemma SelfMergeReports(s: State, ids: seq<string>, ks: seq<E.EdgeKey>)
    requires NoStoredTop(s) && Listable(s.nodes, ids) && EdgesListable(s.edges, ks)
    ensures AllReport(Reports(s, NodeEntries(s.nodes, ids) + EdgeEntries(s.edges, ks)), Merged, ids + EdgeIds(ks))
  {
    hide *;
    var es, ls := NodeEntries(s.nodes, ids), EdgeEntries(s.edges, ks);
    ReplayConcat(s, es, ls);
    SelfMergeNodeReports(s, ids);
    SelfMergeEdgeReports(s, ks);
    AllReportConcat(Reports(s, es), Reports(s, ls), Merged, ids, EdgeIds(ks));
  }

  /** Merging an export back reports every exported id as merged, nothing created, nothing in conflict. */
  lemma SelfMergeAnswer(s: State)
    requires NoStoredTop(s)
    ensures Respond(s, Import(s, s)) ==
            HypothesisReply(Ok(Proto.HypothesisMergeResult([], ExportedIds(s), [])))
  {
    hide *;
    var ids, ks, es, ls := ExportUnpacks(s);
    ImportIsWrite(s, s);
    WriteOutcome(s, Import(s, s), es + ls);
    SelfMergeReports(s, ids, ks);
    ExportedIdsAre(s);
    UniformReports(Reports(s, es + ls), Merged, ExportedIds(s));
    ImportAnswer(s, s, Reports(s, es + ls));
  }

  // ---- Between replicas ----

  /** The two stores name the same type and label for every id they share. */
  ghost predicate AgreeOnShared(a: NodeMap, b: NodeMap) {
    forall id | id in a && id in b :: N.Agree(a[id], b[id])
  }

  lemma AdoptionIsJoin(a: NodeMap, b: NodeMap)
    ensures AgreeOnShared(a, b) ==> Adopt(a, b) == MergeNodes(a, b)
  {
  }

  lemma AdoptionConverges(a: NodeMap, b: NodeMap)
    ensures SameNodes(Adopt(a, b), Adopt(b, a)) <==> AgreeOnShared(a, b)
  {
    var x, y := Adopt(a, b), Adopt(b, a);
    if AgreeOnShared(a, b) {
      AdoptionIsJoin(a, b);
      AdoptionIsJoin(b, a);
      MergeNodesLaws(a, b, b);
    } else {
      var id :| id in a && id in b && !N.Agree(a[id], b[id]);
      assert id in x.Keys && x[id] == a[id] && y[id] == b[id];
    }
  }

  /**
   Two stores that import each other's exports end with the same graph, up to timestamps, exactly
   when they agreed on the type and label of every id they shared.
   */
  lemma ReplicasConvergeIffTheyAgree(a: State, b: State)
    requires NoStoredTop(a) && NoStoredTop(b)
    ensures var x, y := Perform(a, Import(a, b)), Perform(b, Import(b, a));
            SameNodes(x.nodes, y.nodes) && SameEdges(x.edges, y.edges) <==> AgreeOnShared(a.nodes, b.nodes)
  {
    hide *;
    ImportIsAdoption(a, b);
    ImportIsAdoption(b, a);
    AdoptionConverges(a.nodes, b.nodes);
    MergeEdgesLaws(a.edges, b.edges, b.edges);
  }

  /** In that case the common graph is the least upper bound of the two graphs. */
  lemma ReplicaJoinIsLeastUpperBound(a: State, b: State, n: NodeMap, e: EdgeMap)
    requires NoStoredTop(a) && NoStoredTop(b) && AgreeOnShared(a.nodes, b.nodes)
    ensures var x := Perform(a, Import(a, b));
            && NodesBelow(a.nodes, x.nodes) && NodesBelow(b.nodes, x.nodes)
            && EdgesBelow(a.edges, x.edges) && EdgesBelow(b.edges, x.edges)
            && (NodesBelow(a.nodes, n) && NodesBelow(b.nodes, n) <==> NodesBelow(x.nodes, n))
            && (EdgesBelow(a.edges, e) && EdgesBelow(b.edges, e) <==> EdgesBelow(x.edges, e))
  {
    hide *;
    ImportIsAdoption(a, b);
    AdoptionIsJoin(a.nodes, b.nodes);
    MergeNodesLaws(a.nodes, b.nodes, n);
    MergeEdgesLaws(a.edges, b.edges, e);
  }
}
