/** What the four read operations answer, on the fields of the answer and the requests of the run alone. */
module ReadAnswers {
  import opened Wrappers
  import opened Orders
  import opened Provenances
  import opened Events
  import opened GraphLattices
  import opened ProtoConvert
  import opened StoreSpec
  import opened WireFormat
  import Conservation
  import Grouping
  import Growth
  import Retries
  import WriteOrder
  import Proto
  import N = NodeLattices
  import E = EdgeLattices

  // ---- Graphs ----

  /** The nodes listed are exactly those stored, each once, by id. */
  ghost predicate ShowsNodes(ns: seq<Proto.Node>, nodes: NodeMap) {
    && (forall i, j | 0 <= i < j < |ns| :: Before(ns[i].id, ns[j].id))
    && (forall i | 0 <= i < |ns| :: ns[i].id in nodes && ShowsNode(ns[i], nodes[ns[i].id]))
    && (forall id | id in nodes :: exists i :: 0 <= i < |ns| && ns[i].id == id)
  }

  /** The edges listed are exactly those stored, each once, by source, target and type number. */
  ghost predicate ShowsEdges(es: seq<Proto.Edge>, edges: EdgeMap) {
    && (forall i, j | 0 <= i < j < |es| :: EdgeBefore(es[i], es[j]))
    && (forall i | 0 <= i < |es| :: IsStored(es[i], edges))
    && (forall k | k in edges :: IsListed(es, k, edges[k]))
  }

  ghost predicate IsStored(e: Proto.Edge, edges: EdgeMap) {
    exists k :: k in edges && ShowsEdge(e, k, edges[k])
  }

  ghost predicate IsListed(es: seq<Proto.Edge>, k: E.EdgeKey, l: E.EdgeLattice) {
    exists i :: 0 <= i < |es| && ShowsEdge(es[i], k, l)
  }

  ghost predicate ShowsGraph(g: Proto.CausalGraph, nodes: NodeMap, edges: EdgeMap) {
    ShowsNodes(g.nodes, nodes) && ShowsEdges(g.edges, edges)
  }

  /** The nodes that are not tombstoned. */
  function LiveNodes(s: State, inc: IncidentState): NodeMap {
    map id | id in s.nodes && id !in inc.nodeTombstones :: s.nodes[id]
  }

  /** The edges that are not tombstoned and touch no tombstoned node. */
  function LiveEdges(s: State, inc: IncidentState): EdgeMap {
    map k |
      && k in s.edges && k !in inc.edgeTombstones
      && k.source !in inc.nodeTombstones && k.target !in inc.nodeTombstones :: s.edges[k]
  }

  /** Entry `i` of the list shows the node of id `i`. */
  ghost predicate NodesInTurn(ns: seq<Proto.Node>, ids: seq<string>, nodes: NodeMap) {
    |ns| == |ids| && forall i | 0 <= i < |ids| :: ids[i] in nodes && ns[i].id == ids[i] && ShowsNode(ns[i], nodes[ids[i]])
  }

  lemma NodesShownInTurn(ns: seq<Proto.Node>, ids: seq<string>, nodes: NodeMap)
    requires NodesInTurn(ns, ids, nodes) && StrictlySorted(ids, StringLeq) && forall id | id in nodes :: id in ids
    ensures ShowsNodes(ns, nodes)
  {
    hide ShowsNode, Before, StringLeq;
    forall i, j | 0 <= i < j < |ns| ensures Before(ns[i].id, ns[j].id) {
      BeforeIsStringOrder(ids[i], ids[j]);
    }
    forall id | id in nodes ensures exists i :: 0 <= i < |ns| && ns[i].id == id {
      var i :| 0 <= i < |ids| && ids[i] == id;
      assert ns[i].id == id;
    }
  }

  lemma ListedNodeShows(nodes: NodeMap, ids: seq<string>, i: nat)
    requires (forall id | id in ids :: id in nodes) && i < |ids|
    ensures ids[i] in ids
    ensures ListNodes(nodes, ids)[i].id == ids[i] && ShowsNode(ListNodes(nodes, ids)[i], nodes[ids[i]])
  {
    hide ListNodes, DomainNodeToProto, ShowsNode;
    assert ids[i] in ids;
    ListingOnWire(ids[i], nodes[ids[i]], E.EdgeKey("", "", E.DependsOn), E.EdgeLattice(map[]));
  }

  lemma ListedNodesShow(nodes: NodeMap, ids: seq<string>, shown: NodeMap)
    requires StrictlySorted(ids, StringLeq) && (forall id | id in ids :: id in nodes)
    requires forall id :: id in shown <==> id in ids
    requires forall id | id in shown :: id in nodes && shown[id] == nodes[id]
    ensures ShowsNodes(ListNodes(nodes, ids), shown)
  {
    hide ListNodes, ShowsNode, ShowsNodes, StringLeq, StrictlySorted;
    var ns := ListNodes(nodes, ids);
    forall i | 0 <= i < |ids| ensures ids[i] in shown && ns[i].id == ids[i] && ShowsNode(ns[i], shown[ids[i]]) {
      ListedNodeShows(nodes, ids, i);
    }
    NodesShownInTurn(ns, ids, shown);
  }

  lemma ListedEdgeShows(edges: EdgeMap, ks: seq<E.EdgeKey>, i: nat)
    requires (forall k | k in ks :: k in edges) && i < |ks|
    ensures ks[i] in ks && ShowsEdge(ListEdges(edges, ks)[i], ks[i], edges[ks[i]])
  {
    hide ListEdges, DomainEdgeToProto, ShowsEdge;
    assert ks[i] in ks;
    ListingOnWire("", N.New(N.Service, "", true, map[]), ks[i], edges[ks[i]]);
  }

  /** Entry `i` of the list shows the edge of key `i`. */
  ghost predicate ShowsInTurn(es: seq<Proto.Edge>, ks: seq<E.EdgeKey>, edges: EdgeMap) {
    |es| == |ks| && forall i | 0 <= i < |ks| :: ks[i] in edges && ShowsEdge(es[i], ks[i], edges[ks[i]])
  }

  lemma ShownInOrder(es: seq<Proto.Edge>, ks: seq<E.EdgeKey>, edges: EdgeMap)
    requires ShowsInTurn(es, ks, edges) && StrictlySorted(ks, E.EdgeKeyLeq)
    ensures forall i, j | 0 <= i < j < |es| :: EdgeBefore(es[i], es[j])
  {
    hide E.EdgeKeyLeq, ShowsEdge, EdgeBefore;
    forall i, j | 0 <= i < j < |es| ensures EdgeBefore(es[i], es[j]) {
      EdgesInOrder(es[i], es[j], ks[i], ks[j], edges[ks[i]], edges[ks[j]]);
    }
  }

  lemma ShownInTurn(es: seq<Proto.Edge>, ks: seq<E.EdgeKey>, edges: EdgeMap)
    requires ShowsInTurn(es, ks, edges) && forall k | k in edges :: k in ks
    ensures forall i | 0 <= i < |es| :: IsStored(es[i], edges)
    ensures forall k | k in edges :: IsListed(es, k, edges[k])
  {
    hide ShowsEdge;
    forall i | 0 <= i < |es| ensures IsStored(es[i], edges) {
      assert ShowsEdge(es[i], ks[i], edges[ks[i]]);
    }
    forall k | k in edges ensures IsListed(es, k, edges[k]) {
      var i :| 0 <= i < |ks| && ks[i] == k;
    }
  }

  lemma ListedEdgesShow(edges: EdgeMap, ks: seq<E.EdgeKey>, shown: EdgeMap)
    requires StrictlySorted(ks, E.EdgeKeyLeq) && (forall k | k in ks :: k in edges)
    requires forall k :: k in shown <==> k in ks
    requires forall k | k in shown :: k in edges && shown[k] == edges[k]
    ensures ShowsEdges(ListEdges(edges, ks), shown)
  {
    hide ListEdges, E.EdgeKeyLeq, ShowsEdge, EdgeBefore, StrictlySorted, IsStored, IsListed;
    var es := ListEdges(edges, ks);
    forall i | 0 <= i < |ks| ensures ks[i] in shown && ShowsEdge(es[i], ks[i], shown[ks[i]]) {
      ListedEdgeShows(edges, ks, i);
    }
    ShownInOrder(es, ks, shown);
    ShownInTurn(es, ks, shown);
  }

  lemma EdgesInOrder(a: Proto.Edge, b: Proto.Edge, k: E.EdgeKey, k': E.EdgeKey, l: E.EdgeLattice, l': E.EdgeLattice)
    requires ShowsEdge(a, k, l) && ShowsEdge(b, k', l') && k != k' && E.EdgeKeyLeq(k, k')
    ensures EdgeBefore(a, b)
  {
    hide ShowsRecords, E.EdgeKeyLeq, Before;
    EdgeKeyOrderOnWire(k, k');
    TypeNumbers(0);
  }

  lemma MainGraphShows(s: State)
    ensures ShowsGraph(MainGraph(s), s.nodes, s.edges)
  {
    StringOrder();
    E.EdgeKeyOrder();
    hide TotalOrder, StringLeq, E.EdgeKeyLeq, Sorted, StrictlySorted, ShowsNodes, ShowsEdges, ListNodes, ListEdges;
    SortedIsSorted(s.nodes.Keys, StringLeq);
    SortedIsSorted(s.edges.Keys, E.EdgeKeyLeq);
    ListedNodesShow(s.nodes, SortedStrings(s.nodes.Keys), s.nodes);
    ListedEdgesShow(s.edges, E.SortedEdgeKeys(s.edges.Keys), s.edges);
  }

  lemma LiveViewShows(s: State, incident: string)
    requires incident in s.incidents
    ensures LiveView(s, incident).Ok?
    ensures ShowsGraph(LiveView(s, incident).value, LiveNodes(s, s.incidents[incident]), LiveEdges(s, s.incidents[incident]))
  {
    var inc := s.incidents[incident];
    StringOrder();
    E.EdgeKeyOrder();
    assert forall id :: id in LiveNodes(s, inc) <==> id in LiveNodeIds(s, inc);
    assert forall k :: k in LiveEdges(s, inc) <==> k in LiveEdgeKeys(s, inc);
    hide TotalOrder, StringLeq, E.EdgeKeyLeq, Sorted, StrictlySorted, ShowsNodes, ShowsEdges, ListNodes, ListEdges, Filter;
    SortedIsSorted(s.nodes.Keys, StringLeq);
    SortedIsSorted(s.edges.Keys, E.EdgeKeyLeq);
    FilterKeepsSorted(SortedStrings(s.nodes.Keys), NodeAlive(inc), StringLeq);
    FilterKeepsSorted(E.SortedEdgeKeys(s.edges.Keys), EdgeAlive(inc), E.EdgeKeyLeq);
    ListedNodesShow(s.nodes, LiveNodeIds(s, inc), LiveNodes(s, inc));
    ListedEdgesShow(s.edges, LiveEdgeKeys(s, inc), LiveEdges(s, inc));
  }

  // ---- Tombstones ----

  /** The listing shows exactly the tombstones, each once, in order. */
  ghost predicate ShowsTombstones(t: Proto.TombstoneSet, inc: IncidentState) {
    && (forall i, j | 0 <= i < j < |t.nodeIds| :: Before(t.nodeIds[i], t.nodeIds[j]))
    && (forall id :: id in t.nodeIds <==> id in inc.nodeTombstones)
    && (forall i, j | 0 <= i < j < |t.edgeEntries| :: EntryBefore(t.edgeEntries[i], t.edgeEntries[j]))
    && ShowsKeys(t.edgeEntries, inc.edgeTombstones)
  }

  /** The entries are those of the keys, all of them and no others. */
  ghost predicate ShowsKeys(es: seq<Proto.EdgeTombstoneEntry>, keys: set<E.EdgeKey>) {
    && (forall i | 0 <= i < |es| :: IsEntryOf(es[i], keys))
    && (forall k | k in keys :: HasEntry(es, k))
  }

  ghost predicate IsEntryOf(e: Proto.EdgeTombstoneEntry, keys: set<E.EdgeKey>) {
    exists k :: k in keys && ShowsEntry(e, k)
  }

  ghost predicate HasEntry(es: seq<Proto.EdgeTombstoneEntry>, k: E.EdgeKey) {
    exists i :: 0 <= i < |es| && ShowsEntry(es[i], k)
  }

  ghost predicate ShowsEntry(e: Proto.EdgeTombstoneEntry, k: E.EdgeKey) {
    && e.source == k.source && e.target == k.target
    && e.typeNumber == (match k.edgeType { case DependsOn => 1 case PropagatesTo => 2 case ManifestsAs => 3 })
  }

  lemma EntriesInOrder(a: Proto.EdgeTombstoneEntry, b: Proto.EdgeTombstoneEntry, k: E.EdgeKey, k': E.EdgeKey)
    requires ShowsEntry(a, k) && ShowsEntry(b, k') && k != k' && E.EdgeKeyLeq(k, k')
    ensures EntryBefore(a, b)
  {
    hide E.EdgeKeyLeq, Before;
    EdgeKeyOrderOnWire(k, k');
    TypeNumbers(0);
  }

  lemma ListedIdsShow(ids: seq<string>)
    requires StrictlySorted(ids, StringLeq)
    ensures forall i, j | 0 <= i < j < |ids| :: Before(ids[i], ids[j])
  {
    hide StringLeq, Before;
    forall i, j | 0 <= i < j < |ids| ensures Before(ids[i], ids[j]) {
      BeforeIsStringOrder(ids[i], ids[j]);
    }
  }

  lemma ListedEntryShows(ks: seq<E.EdgeKey>, i: nat)
    requires i < |ks|
    ensures ShowsEntry(ListEntries(ks)[i], ks[i])
  {
    TypeNumbers(0);
    hide ListEntries;
  }

  lemma ListedEntriesShow(ks: seq<E.EdgeKey>, keys: set<E.EdgeKey>)
    requires StrictlySorted(ks, E.EdgeKeyLeq) && forall k :: k in ks <==> k in keys
    ensures forall i, j | 0 <= i < j < |ks| :: EntryBefore(ListEntries(ks)[i], ListEntries(ks)[j])
    ensures ShowsKeys(ListEntries(ks), keys)
  {
    hide E.EdgeKeyLeq, EntryBefore, ListEntries, ShowsEntry;
    var es := ListEntries(ks);
    forall i | 0 <= i < |ks| ensures ShowsEntry(es[i], ks[i]) {
      ListedEntryShows(ks, i);
    }
    forall i, j | 0 <= i < j < |ks| ensures EntryBefore(es[i], es[j]) {
      EntriesInOrder(es[i], es[j], ks[i], ks[j]);
    }
    forall i | 0 <= i < |es| ensures IsEntryOf(es[i], keys) {
      assert ks[i] in ks && ShowsEntry(es[i], ks[i]);
    }
    forall k | k in keys ensures HasEntry(es, k) {
      var i :| 0 <= i < |ks| && ks[i] == k;
    }
  }

  lemma TombstonesShow(inc: IncidentState)
    ensures ShowsTombstones(TombstonesOf(inc), inc)
  {
    StringOrder();
    E.EdgeKeyOrder();
    hide TotalOrder, StringLeq, E.EdgeKeyLeq, Sorted, StrictlySorted, Before, EntryBefore, ShowsKeys, ListEntries;
    var ids, ks := SortedStrings(inc.nodeTombstones), E.SortedEdgeKeys(inc.edgeTombstones);
    SortedIsSorted(inc.nodeTombstones, StringLeq);
    SortedIsSorted(inc.edgeTombstones, E.EdgeKeyLeq);
    ListedIdsShow(ids);
    ListedEntriesShow(ks, inc.edgeTombstones);
  }

  // ---- Answers in a state ----

  lemma ReadsRespond(s: State, i: string)
    ensures Respond(s, GetMainGraph) == GraphReply(Ok(MainGraph(s)))
    ensures Respond(s, GetLiveView(i)) == GraphReply(LiveView(s, i))
    ensures Respond(s, GetTombstones(i)) == TombstoneSetReply(Tombstones(s, i))
    ensures Respond(s, GetIncidentContext(i)) == ContextReply(IncidentContext(s, i))
  {
  }

  lemma TombstonesAndContext(s: State, i: string)
    ensures Tombstones(s, i) ==
            if i in s.incidents then Ok(TombstonesOf(s.incidents[i])) else Err(IncidentNotFound(i))
    ensures i !in s.incidents ==> IncidentContext(s, i) == Err(IncidentNotFound(i))
    ensures i in s.incidents ==>
              && IncidentContext(s, i).Ok?
              && IncidentContext(s, i).value.incident == i
              && IncidentContext(s, i).value.createdAt.seconds == s.incidents[i].createdAt.seconds
              && IncidentContext(s, i).value.createdAt.nanos == s.incidents[i].createdAt.nanos
              && IncidentContext(s, i).value.tombstones == TombstonesOf(s.incidents[i])
  {
    hide TombstonesOf;
  }

  lemma UnknownView(s: State, i: string)
    ensures i !in s.incidents ==> LiveView(s, i) == Err(IncidentNotFound(i))
  {
    hide ListNodes, ListEdges;
  }

  /** `get_main_graph` shows the whole graph. */
  lemma MainGraphAnswer(s: State)
    ensures var answer := Respond(s, GetMainGraph);
            answer.GraphReply? && answer.graph.Ok? && ShowsGraph(answer.graph.value, s.nodes, s.edges)
  {
    hide *;
    ReadsRespond(s, "");
    MainGraphShows(s);
  }

  /** `get_live_view` shows the live part of the graph, or does not know the incident. */
  lemma LiveViewAnswer(s: State, incident: string)
    ensures var answer := Respond(s, GetLiveView(incident));
            if incident !in s.incidents then answer == GraphReply(Err(IncidentNotFound(incident)))
            else
              && answer.GraphReply? && answer.graph.Ok?
              && ShowsGraph(answer.graph.value, LiveNodes(s, s.incidents[incident]), LiveEdges(s, s.incidents[incident]))
  {
    hide *;
    ReadsRespond(s, incident);
    UnknownView(s, incident);
    if incident in s.incidents {
      LiveViewShows(s, incident);
    }
  }

  /** `get_tombstones` shows the tombstones of the incident, or does not know it. */
  lemma TombstonesAnswer(s: State, incident: string)
    ensures var answer := Respond(s, GetTombstones(incident));
            if incident !in s.incidents then answer == TombstoneSetReply(Err(IncidentNotFound(incident)))
            else
              && answer.TombstoneSetReply? && answer.tombstoneSet.Ok?
              && ShowsTombstones(answer.tombstoneSet.value, s.incidents[incident])
  {
    hide *;
    ReadsRespond(s, incident);
    TombstonesAndContext(s, incident);
    if incident in s.incidents {
      TombstonesShow(s.incidents[incident]);
    }
  }

  /** `get_incident_context` shows the creation time and the tombstones, or does not know the incident. */
  lemma ContextAnswer(s: State, incident: string)
    ensures var answer := Respond(s, GetIncidentContext(incident));
            if incident !in s.incidents then answer == ContextReply(Err(IncidentNotFound(incident)))
            else
              && answer.ContextReply? && answer.context.Ok?
              && answer.context.value.incident == incident
              && answer.context.value.createdAt.seconds == s.incidents[incident].createdAt.seconds
              && answer.context.value.createdAt.nanos == s.incidents[incident].createdAt.nanos
              && ShowsTombstones(answer.context.value.tombstones, s.incidents[incident])
  {
    hide *;
    ReadsRespond(s, incident);
    TombstonesAndContext(s, incident);
    if incident in s.incidents {
      TombstonesShow(s.incidents[incident]);
    }
  }

  // ---- Answers after a run ----

  /** Some request of the run creates the incident. */
  ghost predicate EverCreated(ops: seq<Op>, incident: string) {
    exists j :: 0 <= j < |ops| && ops[j].CreateIncident? && ops[j].incident == incident
  }

  lemma {:induction false} OnlyOpeningsOpen(s: State, es: seq<Event>, incident: string)
    requires forall e | e in es :: !e.Open?
    ensures incident in Replay(s, es).incidents <==> incident in s.incidents
  {
    if es != [] {
      var init, last := es[..|es| - 1], es[|es| - 1];
      assert last in es;
      OnlyOpeningsOpen(s, init, incident);
      assert Replay(s, es) == Step(Replay(s, init), last);
      hide Replay;
    }
  }

  lemma OpCreates(s: State, op: Op, incident: string)
    ensures incident in Perform(s, op).incidents <==>
            incident in s.incidents || (op.CreateIncident? && op.incident == incident)
    ensures op.CreateIncident? && op.incident == incident && incident !in s.incidents ==>
              Perform(s, op).incidents[incident] == IncidentState(op.now, {}, {})
  {
    if op.CreateIncident? {
      WriteOrder.CreatingIs(s, op);
      hide Perform;
    } else {
      WriteOrder.PerformIs(s, op);
      EntriesAre(s, op);
      Conservation.EntriesHaveKind(op);
      var es := Entries(s, op);
      forall e | e in es ensures !e.Open? {
        Conservation.KindIsLedger(s, op, e);
      }
      hide Perform, Entries, Prefix, Plan;
      OnlyOpeningsOpen(s, es, incident);
    }
  }

  lemma EverCreatedSnoc(init: seq<Op>, last: Op, incident: string)
    ensures EverCreated(init + [last], incident) <==>
            EverCreated(init, incident) || (last.CreateIncident? && last.incident == incident)
    ensures !EverCreated([], incident)
  {
    var ops := init + [last];
    assert ops[|init|] == last && forall j | 0 <= j < |init| :: ops[j] == init[j];
  }

  lemma {:induction false} KnownIffCreated(ops: seq<Op>, incident: string)
    ensures incident in Run(EMPTY, ops).incidents <==> EverCreated(ops, incident)
  {
    hide *;
    RunNothing(EMPTY);
    if ops == [] {
      NoIncidents();
      EverCreatedSnoc([], GetMainGraph, incident);
    } else {
      var init, last := ops[..|ops| - 1], ops[|ops| - 1];
      assert ops == init + [last];
      KnownIffCreated(init, incident);
      RunSnoc(EMPTY, init, last);
      OpCreates(Run(EMPTY, init), last, incident);
      EverCreatedSnoc(init, last, incident);
    }
  }

  lemma NoIncidents()
    ensures EMPTY.incidents == map[]
  {
  }

  /**
   After any run a read about an incident finds it exactly when some request of the run created it;
   otherwise all three answer that they do not know it.
   */
  lemma ReadsKnowWhatWasCreated(ops: seq<Op>, i: string)
    ensures var s := Run(EMPTY, ops);
            var view, tombstones, context := Respond(s, GetLiveView(i)), Respond(s, GetTombstones(i)), Respond(s, GetIncidentContext(i));
            if exists j :: 0 <= j < |ops| && ops[j].CreateIncident? && ops[j].incident == i
            then
              && view.GraphReply? && view.graph.Ok?
              && tombstones.TombstoneSetReply? && tombstones.tombstoneSet.Ok?
              && context.ContextReply? && context.context.Ok?
            else
              && view == GraphReply(Err(IncidentNotFound(i)))
              && tombstones == TombstoneSetReply(Err(IncidentNotFound(i)))
              && context == ContextReply(Err(IncidentNotFound(i)))
  {
    KnownIffCreated(ops, i);
    hide Run, Respond;
    LiveViewAnswer(Run(EMPTY, ops), i);
    TombstonesAnswer(Run(EMPTY, ops), i);
    ContextAnswer(Run(EMPTY, ops), i);
  }

  lemma CreationSticks(before: seq<Op>, op: Op, rest: seq<Op>)
    requires op.CreateIncident? && !EverCreated(before, op.incident)
    ensures var t := Run(EMPTY, before + [op] + rest);
            op.incident in t.incidents && t.incidents[op.incident].createdAt == op.now
  {
    hide *;
    var s := Run(EMPTY, before);
    KnownIffCreated(before, op.incident);
    OpCreates(s, op, op.incident);
    RunSnoc(EMPTY, before, op);
    RunConcat(EMPTY, before + [op], rest);
    var t := Perform(s, op);
    Retries.RunGrows(t, rest);
    CreationTimeStays(t, Run(t, rest), op.incident);
  }

  /** The creation time shown is the clock reading of the first request that created the incident. */
  lemma ContextDatesFirstCreation(ops: seq<Op>, j: nat)
    requires j < |ops| && ops[j].CreateIncident?
    requires forall k | 0 <= k < j :: !(ops[k].CreateIncident? && ops[k].incident == ops[j].incident)
    ensures var answer := Respond(Run(EMPTY, ops), GetIncidentContext(ops[j].incident));
            && answer.ContextReply? && answer.context.Ok?
            && answer.context.value.createdAt == Proto.Timestamp(ops[j].now.seconds, ops[j].now.nanos)
  {
    hide *;
    var op := ops[j];
    NotCreatedBefore(ops, j, op.incident);
    CreationSticks(ops[..j], op, ops[j + 1..]);
    assert ops == ops[..j] + [op] + ops[j + 1..];
    ContextAnswer(Run(EMPTY, ops), op.incident);
  }

  lemma NotCreatedBefore(ops: seq<Op>, j: nat, i: string)
    requires j <= |ops| && forall k | 0 <= k < j :: !(ops[k].CreateIncident? && ops[k].incident == i)
    ensures !EverCreated(ops[..j], i)
  {
  }

  lemma CreationTimeStays(s: State, t: State, i: string)
    requires Growth.Grows(s, t) && i in s.incidents
    ensures i in t.incidents && t.incidents[i].createdAt == s.incidents[i].createdAt
  {
    assert Growth.IncidentGrows(s.incidents[i], t.incidents[i]);
  }

  // ---- A submitted node, as it is listed ----

  /**
   A node merged into an empty store is listed as it was sent: the same id, type number, label and
   flag, and its records by source and trigger. Record `i` of the listing was sent as record
   `sentAs[i]`, with the timestamp listed, or the epoch if it was sent without one; record `j` of the
   request is listed as record `listedAs[j]`.
   */
  lemma SubmittedNodeIsListed(n: Proto.Node) returns (m: Proto.Node, sentAs: seq<nat>, listedAs: seq<nat>)
    requires 1 <= n.typeNumber <= 4
    ensures Respond(Perform(EMPTY, MergeHypothesis(Proto.HypothesisDelta([n], []))), GetMainGraph) ==
            GraphReply(Ok(Proto.CausalGraph([m], [])))
    ensures m.id == n.id && m.typeNumber == n.typeNumber && m.nodeLabel == n.nodeLabel && m.hypothetical == n.hypothetical
    ensures forall i, j | 0 <= i < j < |m.provenance| :: RecordBefore(m.provenance[i], m.provenance[j])
    ensures |sentAs| == |m.provenance|
    ensures forall i | 0 <= i < |m.provenance| ::
              && sentAs[i] < |n.provenance|
              && m.provenance[i].source == n.provenance[sentAs[i]].source
              && m.provenance[i].trigger == n.provenance[sentAs[i]].trigger
              && (n.provenance[sentAs[i]].timestamp.Some? ==> m.provenance[i].timestamp == n.provenance[sentAs[i]].timestamp)
              && (n.provenance[sentAs[i]].timestamp.None? ==> m.provenance[i].timestamp == Some(Proto.Timestamp(0, 0)))
    ensures |listedAs| == |n.provenance|
    ensures forall j | 0 <= j < |n.provenance| ::
              && listedAs[j] < |m.provenance|
              && m.provenance[listedAs[j]].source == n.provenance[j].source
              && m.provenance[listedAs[j]].trigger == n.provenance[j].trigger
  {
    hide *;
    var d := Proto.HypothesisDelta([n], []);
    var s := Perform(EMPTY, MergeHypothesis(d));
    NodeEntryOnWire(n);
    SingleNode(n);
    var l := NodeConversion(n).value.node;
    MainGraphAnswer(s);
    var g := Respond(s, GetMainGraph).graph.value;
    OnlyNodeListed(g, n.id, l);
    m := g.nodes[0];
    ListedFields(n, l, m);
    sentAs := Senders(n.provenance, l.provenance, m.provenance);
    CarriedOver(n.provenance, m.provenance, sentAs);
    listedAs := Listings(n.provenance, l.provenance, m.provenance);
  }

  lemma ListedFields(n: Proto.Node, l: N.NodeLattice, m: Proto.Node)
    requires 1 <= n.typeNumber <= 4 && ShowsNode(m, l)
    requires NodeConversion(n).Ok? && NodeConversion(n).value.PutNode? && NodeConversion(n).value.node == l
    ensures m.typeNumber == n.typeNumber && m.nodeLabel == n.nodeLabel && m.hypothetical == n.hypothetical
    ensures FilesRecords(n.provenance, l.provenance) && ShowsRecords(m.provenance, l.provenance)
    ensures forall i, j | 0 <= i < j < |m.provenance| :: RecordBefore(m.provenance[i], m.provenance[j])
  {
    NodeEntryOnWire(n);
    hide FilesRecords, RecordBefore, NodeConversion;
  }

  lemma SingleNode(n: Proto.Node)
    requires 1 <= n.typeNumber <= 4
    ensures NodeConversion(n).Ok? && NodeConversion(n).value.PutNode? && NodeConversion(n).value.id == n.id
    ensures Perform(EMPTY, MergeHypothesis(Proto.HypothesisDelta([n], []))) ==
            State(map[n.id := NodeConversion(n).value.node], map[], map[])
  {
    NodeEntryOnWire(n);
    var d := Proto.HypothesisDelta([n], []);
    var e := NodeConversion(n).value;
    OneEntryPlan(n);
    hide Perform, Respond, NodeConversion, Plan, NodePlan, EdgePlan, Prefix, Entries, Replay, FilesRecords;
    Grouping.DeltaProcesses(EMPTY, d);
    ReplayNothing(EMPTY);
    assert [] + [e] == [e];
    ReplaySnoc(EMPTY, [], e);
  }

  lemma OneEntryPlan(n: Proto.Node)
    requires NodeConversion(n).Ok?
    ensures Prefix(Plan(MergeHypothesis(Proto.HypothesisDelta([n], [])))) == [NodeConversion(n).value]
  {
    var d := Proto.HypothesisDelta([n], []);
    hide NodeConversion, Prefix;
    assert NodePlan(d.nodes)[0] == NodeConversion(n);
    assert Plan(MergeHypothesis(d)) == NodePlan(d.nodes) + EdgePlan(d.edges);
    PrefixIsUnique(Plan(MergeHypothesis(d)), [NodeConversion(n).value]);
  }

  lemma ShownEdgeIsStored(es: seq<Proto.Edge>, edges: EdgeMap)
    requires ShowsEdges(es, edges) && es != []
    ensures edges != map[]
  {
    hide ShowsEdge;
    assert IsStored(es[0], edges);
  }

  lemma IdsDiffer(ns: seq<Proto.Node>)
    requires |ns| > 1 && forall i, j | 0 <= i < j < |ns| :: Before(ns[i].id, ns[j].id)
    ensures ns[0].id != ns[1].id
  {
    assert Before(ns[0].id, ns[1].id);
  }

  lemma OnlyNodeListed(g: Proto.CausalGraph, id: string, n: N.NodeLattice)
    requires ShowsGraph(g, map[id := n], map[])
    ensures |g.nodes| == 1 && g.nodes[0].id == id && ShowsNode(g.nodes[0], n)
    ensures g == Proto.CausalGraph([g.nodes[0]], [])
  {
    hide ShowsNode, ShowsEdges;
    if g.edges != [] {
      ShownEdgeIsStored(g.edges, map[]);
    }
    assert id in map[id := n];
    var i :| 0 <= i < |g.nodes| && g.nodes[i].id == id;
    if |g.nodes| > 1 {
      IdsDiffer(g.nodes);
    }
    assert g.nodes == [g.nodes[0]];
  }

  /** The listed record is the one sent, a missing timestamp being listed as the epoch. */
  ghost predicate CarriedAs(sent: Proto.Provenance, listed: Proto.Provenance) {
    && listed.source == sent.source && listed.trigger == sent.trigger
    && (sent.timestamp.Some? ==> listed.timestamp == sent.timestamp)
    && (sent.timestamp.None? ==> listed.timestamp == Some(Proto.Timestamp(0, 0)))
  }

  lemma SentRecord(sent: seq<Proto.Provenance>, filed: ProvSet, r: Proto.Provenance) returns (j: nat)
    requires FilesRecords(sent, filed)
    requires var k := ProvKey(r.source, r.trigger);
             k in filed && r.timestamp == Some(Proto.Timestamp(filed[k].seconds, filed[k].nanos))
    ensures j < |sent| && CarriedAs(sent[j], r)
  {
    var k := ProvKey(r.source, r.trigger);
    assert WasSent(sent, k, filed[k]);
    hide FilesRecords;
    j :| 0 <= j < |sent| && FiledAs(sent[j], k, filed[k]);
  }

  lemma ListedRecord(filed: ProvSet, listed: seq<Proto.Provenance>, r: Proto.Provenance) returns (i: nat)
    requires ShowsRecords(listed, filed) && ProvKey(r.source, r.trigger) in filed
    ensures i < |listed| && listed[i].source == r.source && listed[i].trigger == r.trigger
  {
    i :| 0 <= i < |listed| && listed[i].source == r.source && listed[i].trigger == r.trigger;
  }

  lemma Senders(sent: seq<Proto.Provenance>, filed: ProvSet, listed: seq<Proto.Provenance>) returns (sentAs: seq<nat>)
    requires FilesRecords(sent, filed) && ShowsRecords(listed, filed)
    ensures |sentAs| == |listed|
    ensures forall i | 0 <= i < |listed| :: sentAs[i] < |sent| && CarriedAs(sent[sentAs[i]], listed[i])
  {
    hide RecordBefore, FilesRecords, CarriedAs;
    sentAs := [];
    for i := 0 to |listed|
      invariant |sentAs| == i
      invariant forall k | 0 <= k < i :: sentAs[k] < |sent| && CarriedAs(sent[sentAs[k]], listed[k])
    {
      var j := SentRecord(sent, filed, listed[i]);
      sentAs := sentAs + [j];
    }
  }

  lemma Listings(sent: seq<Proto.Provenance>, filed: ProvSet, listed: seq<Proto.Provenance>) returns (listedAs: seq<nat>)
    requires FilesRecords(sent, filed) && ShowsRecords(listed, filed)
    ensures |listedAs| == |sent|
    ensures forall j | 0 <= j < |sent| ::
              && listedAs[j] < |listed|
              && listed[listedAs[j]].source == sent[j].source && listed[listedAs[j]].trigger == sent[j].trigger
  {
    hide ShowsRecords, WasSent;
    listedAs := [];
    for j := 0 to |sent|
      invariant |listedAs| == j
      invariant forall k | 0 <= k < j ::
                  && listedAs[k] < |listed|
                  && listed[listedAs[k]].source == sent[k].source && listed[listedAs[k]].trigger == sent[k].trigger
    {
      var i := ListedRecord(filed, listed, sent[j]);
      listedAs := listedAs + [i];
    }
  }

  lemma CarriedOver(sent: seq<Proto.Provenance>, listed: seq<Proto.Provenance>, sentAs: seq<nat>)
    requires |sentAs| == |listed|
    requires forall i | 0 <= i < |listed| :: sentAs[i] < |sent| && CarriedAs(sent[sentAs[i]], listed[i])
    ensures forall i | 0 <= i < |listed| ::
              && listed[i].source == sent[sentAs[i]].source && listed[i].trigger == sent[sentAs[i]].trigger
              && (sent[sentAs[i]].timestamp.Some? ==> listed[i].timestamp == sent[sentAs[i]].timestamp)
              && (sent[sentAs[i]].timestamp.None? ==> listed[i].timestamp == Some(Proto.Timestamp(0, 0)))
  {
  }
}
