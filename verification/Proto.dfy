/** The wire messages. An enum field is the bare number it travels as. */
module Proto {
  import opened Wrappers

  datatype Timestamp = Timestamp(seconds: int, nanos: int)

  datatype Provenance = Provenance(source: string, trigger: string, timestamp: Option<Timestamp>)

  datatype Node = Node(id: string, typeNumber: int, nodeLabel: string, hypothetical: bool, provenance: seq<Provenance>)

  datatype Edge = Edge(source: string, target: string, typeNumber: int, provenance: seq<Provenance>)

  datatype CausalGraph = CausalGraph(nodes: seq<Node>, edges: seq<Edge>)

  datatype HypothesisDelta = HypothesisDelta(nodes: seq<Node>, edges: seq<Edge>)

  datatype NodeTombstoneRequest =
    NodeTombstoneRequest(incident: string, nodeIds: seq<string>, provenance: Option<Provenance>)

  datatype EdgeTombstoneEntry = EdgeTombstoneEntry(source: string, target: string, typeNumber: int)

  datatype EdgeTombstoneRequest =
    EdgeTombstoneRequest(incident: string, entries: seq<EdgeTombstoneEntry>, provenance: Option<Provenance>)

  datatype MergeConflict =
    MergeConflict(id: string, field: string, existingValue: string, proposedValue: string)

  datatype HypothesisMergeResult =
    HypothesisMergeResult(createdIds: seq<string>, mergedIds: seq<string>, conflicts: seq<MergeConflict>)

  datatype CreateIncidentResult = CreateIncidentResult(incident: string, created: bool)

  datatype TombstoneMergeResult =
    TombstoneMergeResult(appliedIds: seq<string>, alreadyTombstonedIds: seq<string>, unmatchedIds: seq<string>)

  datatype TombstoneSet = TombstoneSet(nodeIds: seq<string>, edgeEntries: seq<EdgeTombstoneEntry>)

  datatype IncidentContext = IncidentContext(incident: string, createdAt: Timestamp, tombstones: TombstoneSet)

  const NODE_TYPE_UNSPECIFIED := 0
  const NODE_TYPE_SERVICE := 1
  const NODE_TYPE_DEPENDENCY := 2
  const NODE_TYPE_INFRASTRUCTURE := 3
  const NODE_TYPE_MECHANISM := 4

  const EDGE_TYPE_UNSPECIFIED := 0
  const EDGE_TYPE_DEPENDS_ON := 1
  const EDGE_TYPE_PROPAGATES_TO := 2
  const EDGE_TYPE_MANIFESTS_AS := 3
}
