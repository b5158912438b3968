/**
 Concrete requests, all of them valid, for which the order or the grouping of submissions shows. They
 witness that the conditions of the exact theorems are not vacuous for anyone behind validation.
 */
module Counterexamples {
  import opened Wrappers
  import opened Events
  import opened ClosedForm
  import opened Convergence
  import opened StoreSpec
  import opened Retries
  import opened Commutation
  import opened Grouping
  import opened Validation
  import ProtoConvert
  import Proto
  import WriteOrder
  import N = NodeLattices
  import P = Provenances

  const RECORD := Proto.Provenance("agent", "alert", None)

  function NodeRequest(id: string, typeNumber: int, nodeLabel: string): Proto.HypothesisDelta {
    Proto.HypothesisDelta([Proto.Node(id, typeNumber, nodeLabel, true, [RECORD])], [])
  }

  function EdgeRequest(source: string, target: string): Proto.HypothesisDelta {
    Proto.HypothesisDelta([], [Proto.Edge(source, target, Proto.EDGE_TYPE_DEPENDS_ON, [RECORD])])
  }

  lemma RequestsAreValid(id: string, typeNumber: int, nodeLabel: string, source: string, target: string)
    ensures id != "" && nodeLabel != "" && typeNumber != 0 ==> ValidateHypothesisDelta(NodeRequest(id, typeNumber, nodeLabel)).Ok?
    ensures source != "" && target != "" && source != target ==> ValidateHypothesisDelta(EdgeRequest(source, target)).Ok?
  {
  }

  lemma NodeRequestConverts(id: string, typeNumber: int, nodeLabel: string)
    ensures var d := NodeRequest(id, typeNumber, nodeLabel);
            && (NodesConvert(d) <==> 1 <= typeNumber <= 4)
            && if 1 <= typeNumber <= 4
               then |NodeEntries(d)| == 1 && NodeEntries(d)[0].PutNode? && NodeEntries(d)[0].id == id
               else NodeEntries(d) == []
  {
    var d := NodeRequest(id, typeNumber, nodeLabel);
    assert d.nodes[0] in d.nodes;
    var c := NodeConversion(d.nodes[0]);
    assert 1 <= typeNumber <= 4 ==> c.Ok? && c.value.PutNode? && c.value.id == id;
    assert !(1 <= typeNumber <= 4) ==> c.Err?;
    assert NodePlan(d.nodes)[0] == c;
    hide NodeConversion, Prefix, ProtoConvert.Collect;
    PrefixIsUnique(NodePlan(d.nodes), if c.Ok? then [c.value] else []);
  }

  lemma EdgeRequestConverts(source: string, target: string)
    ensures NodesConvert(EdgeRequest(source, target)) && !NoEdgeConvertsFirst(EdgeRequest(source, target))
  {
  }

  /** The grouping claim fails for valid requests: a bad node cuts off the edge submitted before it. */
  lemma GroupingFailsAfterAnEdge()
    ensures var d1, d2 := EdgeRequest("a", "b"), NodeRequest("n", 9, "x");
            && ValidateHypothesisDelta(d1).Ok? && ValidateHypothesisDelta(d2).Ok?
            && Perform(Perform(EMPTY, MergeHypothesis(d1)), MergeHypothesis(d2)) !=
               Perform(EMPTY, MergeHypothesis(Together(d1, d2)))
  {
    hide *;
    RequestsAreValid("n", 9, "x", "a", "b");
    EdgeRequestConverts("a", "b");
    NodeRequestConverts("n", 9, "x");
    BadNodeCutsOffEdges(EdgeRequest("a", "b"), NodeRequest("n", 9, "x"));
  }

  /** It also fails when the first request is the bad one: on its own, the second is still processed. */
  lemma GroupingFailsAfterABadNode()
    ensures var d1, d2 := NodeRequest("m", 9, "x"), NodeRequest("n", 1, "x");
            && ValidateHypothesisDelta(d1).Ok? && ValidateHypothesisDelta(d2).Ok?
            && Perform(Perform(EMPTY, MergeHypothesis(d1)), MergeHypothesis(d2)) !=
               Perform(EMPTY, MergeHypothesis(Together(d1, d2)))
  {
    hide *;
    var d1, d2 := NodeRequest("m", 9, "x"), NodeRequest("n", 1, "x");
    RequestsAreValid("m", 9, "x", "a", "b");
    RequestsAreValid("n", 1, "x", "a", "b");
    NodeRequestConverts("m", 9, "x");
    NodeRequestConverts("n", 1, "x");
    BadNodeGroupings(EMPTY, d1, d2);
    ReplayNothing(EMPTY);
    NodesAreProcessed(d2);
    NodeStored(Processed(d2), 0);
    EmptyHasNoNodes();
  }

  lemma NodesAreProcessed(d: Proto.HypothesisDelta)
    ensures |NodeEntries(d)| <= |Processed(d)|
    ensures forall i | 0 <= i < |NodeEntries(d)| :: Processed(d)[i] == NodeEntries(d)[i]
  {
    hide NodeEntries, EdgeEntries;
  }

  lemma EmptyHasNoNodes()
    ensures EMPTY.nodes == map[]
  {
  }

  lemma NodeStored(es: seq<Event>, i: nat)
    requires i < |es| && es[i].PutNode?
    ensures es[i].id in Replay(EMPTY, es).nodes
  {
    NodeClosedForm(es, es[i].id);
    assert ProposedAt(es, i, es[i].id);
  }

  // ---- Order ----

  lemma LabelIsProposed(id: string, nodeLabel: string)
    ensures var es := NodeEntries(NodeRequest(id, 1, nodeLabel));
            FirstProposal(es, 0, id) && es[0].node.nodeLabel == N.Agreed(nodeLabel)
  {
    var d := NodeRequest(id, 1, nodeLabel);
    NodeRequestConverts(id, 1, nodeLabel);
    assert NodePlan(d.nodes)[0] == NodeConversion(d.nodes[0]);
    assert NodePlan(d.nodes)[0] == Ok(NodeEntries(d)[0]);
  }

  lemma NodeRequestProcesses(id: string, nodeLabel: string)
    ensures Prefix(Plan(MergeHypothesis(NodeRequest(id, 1, nodeLabel)))) == NodeEntries(NodeRequest(id, 1, nodeLabel))
  {
    var d := NodeRequest(id, 1, nodeLabel);
    DeltaProcesses(EMPTY, d);
    NodeRequestConverts(id, 1, nodeLabel);
    assert EdgeEntries(d) == [];
    hide Plan, Prefix, NodeEntries, EdgeEntries;
  }

  /** The commutativity claim fails for valid requests: two labels for one id, the first one wins. */
  lemma CommutingFails()
    ensures var d1, d2 := NodeRequest("n", 1, "x"), NodeRequest("n", 1, "y");
            && ValidateHypothesisDelta(d1).Ok? && ValidateHypothesisDelta(d2).Ok?
            && !SameState(Perform(Perform(EMPTY, MergeHypothesis(d1)), MergeHypothesis(d2)),
                          Perform(Perform(EMPTY, MergeHypothesis(d2)), MergeHypothesis(d1)))
  {
    hide *;
    var d1, d2 := NodeRequest("n", 1, "x"), NodeRequest("n", 1, "y");
    RequestsAreValid("n", 1, "x", "a", "b");
    RequestsAreValid("n", 1, "y", "a", "b");
    LabelIsProposed("n", "x");
    LabelIsProposed("n", "y");
    NodeRequestProcesses("n", "x");
    NodeRequestProcesses("n", "y");
    RunNothing(EMPTY);
    EmptyHasNoNodes();
    DifferentLabelsCompete(NodeEntries(d1), NodeEntries(d2), "n");
    HypothesesCommuteIff([], d1, d2);
  }

  lemma DifferentLabelsCompete(x: seq<Event>, y: seq<Event>, id: string)
    requires FirstProposal(x, 0, id) && FirstProposal(y, 0, id) && x[0].node.nodeLabel != y[0].node.nodeLabel
    ensures Compete(x, y, id)
  {
  }

  function Tombstones(incident: string, id: string): Proto.NodeTombstoneRequest {
    Proto.NodeTombstoneRequest(incident, [id], Some(RECORD))
  }

  lemma TombstonesAreProcessed(incident: string, id: string)
    ensures ValidateNodeTombstoneRequest(Tombstones(incident, id)).Ok? <==> incident != ""
    ensures Prefix(Plan(MergeNodeTombstones(Tombstones(incident, id)))) != []
  {
    hide Prefix, Failure;
    NodeBurials(Tombstones(incident, id));
  }

  /** Tombstones submitted before their incident is created are refused, so that order shows too. */
  lemma OpeningOrderShows(now: P.Timestamp)
    ensures var x, r := CreateIncident("i", now), Tombstones("i", "n");
            && ValidateIncidentId("i").Ok? && ValidateNodeTombstoneRequest(r).Ok?
            && !SameState(Perform(Perform(EMPTY, x), MergeNodeTombstones(r)),
                          Perform(Perform(EMPTY, MergeNodeTombstones(r)), x))
  {
    var x, y := CreateIncident("i", now), MergeNodeTombstones(Tombstones("i", "n"));
    assert WriteOrder.Opens(x, y) && x.incident !in EMPTY.incidents && ValidateIncidentId("i").Ok?;
    hide *;
    TombstonesAreProcessed("i", "n");
    WriteOrder.OpeningOrder(EMPTY, x, y);
  }
}
