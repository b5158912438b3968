/**
 The operations of the store as functions of its state: what each does to the state and what it
 answers. A write is a plan of conversions; it processes the plan's entries up to the first one
 that does not convert.
 */
module StoreSpec {
  import opened Wrappers
  import opened Orders
  import opened Events
  import opened GraphLattices
  import opened ProtoConvert
  import Proto
  import E = EdgeLattices
  import P = Provenances

  datatype StoreError = IncidentNotFound(incident: string) | Backend(error: ConversionError)

  datatype Op =
    | MergeHypothesis(delta: Proto.HypothesisDelta)
    | CreateIncident(incident: string, now: P.Timestamp)
    | MergeNodeTombstones(nodeRequest: Proto.NodeTombstoneRequest)
    | MergeEdgeTombstones(edgeRequest: Proto.EdgeTombstoneRequest)
    | GetIncidentContext(incident: string)
    | GetLiveView(incident: string)
    | GetTombstones(incident: string)
    | GetMainGraph

  datatype Response =
    | HypothesisReply(hypothesis: Result<Proto.HypothesisMergeResult, StoreError>)
    | IncidentReply(created: Proto.CreateIncidentResult)
    | TombstoneReply(tombstones: Result<Proto.TombstoneMergeResult, StoreError>)
    | ContextReply(context: Result<Proto.IncidentContext, StoreError>)
    | GraphReply(graph: Result<Proto.CausalGraph, StoreError>)
    | TombstoneSetReply(tombstoneSet: Result<Proto.TombstoneSet, StoreError>)

  predicate IsRead(op: Op) {
    op.GetIncidentContext? || op.GetLiveView? || op.GetTombstones? || op.GetMainGraph?
  }

  // ---- Plans ----

  type Conversion = Result<Event, ConversionError>

  function NodeConversion(n: Proto.Node): Conversion {
    match ProtoNodeToDomain(n)
    case Ok(pair) => Ok(PutNode(pair.0, pair.1))
    case Err(e) => Err(e)
  }

  function EdgeConversion(e: Proto.Edge): Conversion {
    match ProtoEdgeToDomain(e)
    case Ok(pair) => Ok(PutEdge(pair.0, pair.1))
    case Err(e) => Err(e)
  }

  function EntryConversion(incident: string, entry: Proto.EdgeTombstoneEntry): Conversion {
    match EdgeTypeFromNumber(entry.typeNumber)
    case Ok(t) => Ok(BuryEdge(incident, E.EdgeKey(entry.source, entry.target, t)))
    case Err(e) => Err(e)
  }

  function NodePlan(ns: seq<Proto.Node>): (plan: seq<Conversion>)
    ensures |plan| == |ns|
    ensures forall i | 0 <= i < |ns| :: plan[i] == NodeConversion(ns[i])
  {
    if ns == [] then [] else NodePlan(ns[..|ns| - 1]) + [NodeConversion(ns[|ns| - 1])]
  }

  function EdgePlan(es: seq<Proto.Edge>): (plan: seq<Conversion>)
    ensures |plan| == |es|
    ensures forall i | 0 <= i < |es| :: plan[i] == EdgeConversion(es[i])
  {
    if es == [] then [] else EdgePlan(es[..|es| - 1]) + [EdgeConversion(es[|es| - 1])]
  }

  function BuryPlan(incident: string, ids: seq<string>): (plan: seq<Conversion>)
    ensures |plan| == |ids|
    ensures forall i | 0 <= i < |ids| :: plan[i] == Ok(BuryNode(incident, ids[i]))
  {
    if ids == [] then [] else BuryPlan(incident, ids[..|ids| - 1]) + [Ok(BuryNode(incident, ids[|ids| - 1]))]
  }

  function EntryPlan(incident: string, entries: seq<Proto.EdgeTombstoneEntry>): (plan: seq<Conversion>)
    ensures |plan| == |entries|
    ensures forall i | 0 <= i < |entries| :: plan[i] == EntryConversion(incident, entries[i])
  {
    if entries == [] then []
    else EntryPlan(incident, entries[..|entries| - 1]) + [EntryConversion(incident, entries[|entries| - 1])]
  }

  function Plan(op: Op): seq<Conversion> {
    match op
    case MergeHypothesis(d) => NodePlan(d.nodes) + EdgePlan(d.edges)
    case CreateIncident(i, now) => [Ok(Open(i, now))]
    case MergeNodeTombstones(r) => BuryPlan(r.incident, r.nodeIds)
    case MergeEdgeTombstones(r) => EntryPlan(r.incident, r.entries)
    case _ => []
  }

  predicate KindOf(op: Op, e: Event) {
    match op
    case MergeHypothesis(_) => e.PutNode? || e.PutEdge?
    case CreateIncident(i, _) => e.Open? && e.incident == i
    case MergeNodeTombstones(r) => e.BuryNode? && e.incident == r.incident
    case MergeEdgeTombstones(r) => e.BuryEdge? && e.incident == r.incident
    case _ => false
  }

  lemma ConversionKeepsKind(n: Proto.Node, e: Proto.Edge, incident: string, t: Proto.EdgeTombstoneEntry)
    ensures NodeConversion(n).Ok? ==> NodeConversion(n).value.PutNode?
    ensures EdgeConversion(e).Ok? ==> EdgeConversion(e).value.PutEdge?
    ensures var c := EntryConversion(incident, t);
            c.Ok? ==> c.value.BuryEdge? && c.value.incident == incident
  {
  }

  lemma DeltaPlanKeepsKind(d: Proto.HypothesisDelta, i: nat)
    requires i < |NodePlan(d.nodes) + EdgePlan(d.edges)| && (NodePlan(d.nodes) + EdgePlan(d.edges))[i].Ok?
    ensures var e := (NodePlan(d.nodes) + EdgePlan(d.edges))[i].value;
            e.PutNode? || e.PutEdge?
  {
    hide *;
    var n := |d.nodes|;
    var noEntry := Proto.EdgeTombstoneEntry("", "", 0);
    if i < n {
      ConversionKeepsKind(d.nodes[i], Proto.Edge("", "", 0, []), "", noEntry);
    } else {
      ConversionKeepsKind(Proto.Node("", 0, "", false, []), d.edges[i - n], "", noEntry);
    }
  }

  lemma EntryPlanKeepsKind(r: Proto.EdgeTombstoneRequest, i: nat)
    requires i < |r.entries| && EntryPlan(r.incident, r.entries)[i].Ok?
    ensures var e := EntryPlan(r.incident, r.entries)[i].value;
            e.BuryEdge? && e.incident == r.incident
  {
    hide *;
    ConversionKeepsKind(Proto.Node("", 0, "", false, []), Proto.Edge("", "", 0, []), r.incident, r.entries[i]);
  }

  /** An operation's entries are of its own kind and name its own incident. */
  lemma PlanKeepsKind(op: Op, i: nat)
    requires i < |Plan(op)| && Plan(op)[i].Ok?
    ensures KindOf(op, Plan(op)[i].value)
  {
    hide Prefix, Failure, NodePlan, EdgePlan, EntryPlan, BuryPlan, NodeConversion, EdgeConversion, EntryConversion;
    match op
    case MergeHypothesis(d) => DeltaPlanKeepsKind(d, i);
    case MergeEdgeTombstones(r) => EntryPlanKeepsKind(r, i);
    case _ =>
  }

  /** The entries before the first one that does not convert. */
  function Prefix(plan: seq<Conversion>): (es: seq<Event>)
    ensures |es| <= |plan|
    ensures forall i | 0 <= i < |es| :: plan[i] == Ok(es[i])
    ensures |es| < |plan| ==> plan[|es|].Err?
  {
    if plan == [] || plan[0].Err? then [] else [plan[0].value] + Prefix(plan[1..])
  }

  /** Why the plan stops early, if it does. */
  function Failure(plan: seq<Conversion>): (f: Option<ConversionError>)
    ensures f == if |Prefix(plan)| < |plan| then Some(plan[|Prefix(plan)|].error) else None
  {
    if plan == [] then None else if plan[0].Err? then Some(plan[0].error) else Failure(plan[1..])
  }

  lemma PrefixIsUnique(plan: seq<Conversion>, es: seq<Event>)
    requires |es| <= |plan| && (forall i | 0 <= i < |es| :: plan[i] == Ok(es[i]))
    requires |es| < |plan| ==> plan[|es|].Err?
    ensures Prefix(plan) == es
  {
    var p := Prefix(plan);
    assert |p| == |es|;
    forall i | 0 <= i < |es| ensures p[i] == es[i] {
      assert plan[i] == Ok(es[i]);
    }
  }

  // ---- Writes ----

  /** The incident an operation needs to exist, if any. */
  function Needs(op: Op): Option<string> {
    match op
    case MergeNodeTombstones(r) => Some(r.incident)
    case MergeEdgeTombstones(r) => Some(r.incident)
    case GetIncidentContext(i) => Some(i)
    case GetLiveView(i) => Some(i)
    case GetTombstones(i) => Some(i)
    case _ => None
  }

  predicate Missing(s: State, op: Op) {
    Needs(op).Some? && Needs(op).value !in s.incidents
  }

  /** The entries an operation processes. */
  function Entries(s: State, op: Op): seq<Event> {
    if Missing(s, op) then [] else Prefix(Plan(op))
  }

  lemma EntriesAre(s: State, op: Op)
    ensures Entries(s, op) == if Missing(s, op) then [] else Prefix(Plan(op))
  {
  }

  function Perform(s: State, op: Op): State {
    Replay(s, Entries(s, op))
  }

  function IdsWith(rs: seq<Report>, o: Outcome): seq<string> {
    if rs == [] then []
    else
      IdsWith(rs[..|rs| - 1], o) + if rs[|rs| - 1].outcome == o then [rs[|rs| - 1].id] else []
  }

  function ConflictsIn(rs: seq<Report>): seq<Proto.MergeConflict> {
    if rs == [] then []
    else
      var last := rs[|rs| - 1];
      ConflictsIn(rs[..|rs| - 1]) +
      if last.outcome.Rejected?
      then [Proto.MergeConflict(last.id, last.outcome.field, last.outcome.existingValue, "")]
      else []
  }

  function HypothesisResult(rs: seq<Report>): Proto.HypothesisMergeResult {
    Proto.HypothesisMergeResult(IdsWith(rs, Created), IdsWith(rs, Merged), ConflictsIn(rs))
  }

  function TombstoneResult(rs: seq<Report>): Proto.TombstoneMergeResult {
    Proto.TombstoneMergeResult(IdsWith(rs, Applied), IdsWith(rs, AlreadyTombstoned), IdsWith(rs, Unmatched))
  }

  lemma NoReports()
    ensures forall o :: IdsWith([], o) == []
    ensures ConflictsIn([]) == []
  {
  }

  lemma OneMoreReport(rs: seq<Report>, r: Report)
    ensures forall o :: IdsWith(rs + [r], o) == IdsWith(rs, o) + if r.outcome == o then [r.id] else []
    ensures ConflictsIn(rs + [r]) ==
            ConflictsIn(rs) +
            if r.outcome.Rejected? then [Proto.MergeConflict(r.id, r.outcome.field, r.outcome.existingValue, "")] else []
  {
    assert (rs + [r])[..|rs|] == rs;
  }

  /** Every report says `o`, about the listed ids in order. */
  predicate AllReport(rs: seq<Report>, o: Outcome, ids: seq<string>) {
    |rs| == |ids| && forall i | 0 <= i < |rs| :: rs[i] == Report(o, ids[i])
  }

  lemma AllReportConcat(a: seq<Report>, b: seq<Report>, o: Outcome, ids: seq<string>, more: seq<string>)
    requires AllReport(a, o, ids) && AllReport(b, o, more)
    ensures AllReport(a + b, o, ids + more)
  {
  }

  /** Reports that all say the same outcome fill one list, in order, and leave the others empty. */
  lemma {:induction false} UniformReports(rs: seq<Report>, o: Outcome, ids: seq<string>)
    requires AllReport(rs, o, ids) && !o.Rejected?
    ensures IdsWith(rs, o) == ids
    ensures forall o' | o' != o :: IdsWith(rs, o') == []
    ensures ConflictsIn(rs) == []
  {
    hide IdsWith, ConflictsIn;
    NoReports();
    if rs != [] {
      var init, last := rs[..|rs| - 1], rs[|rs| - 1];
      UniformReports(init, o, ids[..|ids| - 1]);
      assert rs == init + [last] && ids == ids[..|ids| - 1] + [ids[|ids| - 1]];
      OneMoreReport(init, last);
    }
  }

  /** A write's answer, from whether its incident was missing and what its iterations reported. */
  function WriteResponse(op: Op, missing: bool, rs: seq<Report>): Response
    requires !IsRead(op)
  {
    match op
    case MergeHypothesis(_) =>
      HypothesisReply(
        if Failure(Plan(op)).Some? then Err(Backend(Failure(Plan(op)).value)) else Ok(HypothesisResult(rs)))
    case CreateIncident(i, _) =>
      IncidentReply(Proto.CreateIncidentResult(i, IdsWith(rs, Opened) == [i]))
    case MergeNodeTombstones(r) =>
      TombstoneReply(if missing then Err(IncidentNotFound(r.incident)) else Ok(TombstoneResult(rs)))
    case MergeEdgeTombstones(r) =>
      TombstoneReply(
        if missing then Err(IncidentNotFound(r.incident))
        else if Failure(Plan(op)).Some? then Err(Backend(Failure(Plan(op)).value))
        else Ok(TombstoneResult(rs)))
  }

  // ---- Reads ----

  function ListNodes(nodes: NodeMap, ids: seq<string>): (ns: seq<Proto.Node>)
    requires forall id | id in ids :: id in nodes
    ensures |ns| == |ids|
    ensures forall i | 0 <= i < |ids| :: ns[i] == DomainNodeToProto(ids[i], nodes[ids[i]])
  {
    seq(|ids|, i requires 0 <= i < |ids| => DomainNodeToProto(ids[i], nodes[ids[i]]))
  }

  function ListEdges(edges: EdgeMap, ks: seq<E.EdgeKey>): (es: seq<Proto.Edge>)
    requires forall k | k in ks :: k in edges
    ensures |es| == |ks|
    ensures forall i | 0 <= i < |ks| :: es[i] == DomainEdgeToProto(ks[i], edges[ks[i]])
  {
    seq(|ks|, i requires 0 <= i < |ks| => DomainEdgeToProto(ks[i], edges[ks[i]]))
  }

  function ListEntries(ks: seq<E.EdgeKey>): (es: seq<Proto.EdgeTombstoneEntry>)
    ensures |es| == |ks|
    ensures forall i | 0 <= i < |ks| ::
              es[i] == Proto.EdgeTombstoneEntry(ks[i].source, ks[i].target, EdgeTypeToNumber(ks[i].edgeType))
  {
    if ks == [] then []
    else
      var k := ks[|ks| - 1];
      ListEntries(ks[..|ks| - 1]) + [Proto.EdgeTombstoneEntry(k.source, k.target, EdgeTypeToNumber(k.edgeType))]
  }

  function MainGraph(s: State): Proto.CausalGraph {
    Proto.CausalGraph(
      ListNodes(s.nodes, SortedStrings(s.nodes.Keys)),
      ListEdges(s.edges, E.SortedEdgeKeys(s.edges.Keys)))
  }

  function NodeAlive(inc: IncidentState): string -> bool {
    id => id !in inc.nodeTombstones
  }

  function EdgeAlive(inc: IncidentState): E.EdgeKey -> bool {
    k => k !in inc.edgeTombstones && k.source !in inc.nodeTombstones && k.target !in inc.nodeTombstones
  }

  function LiveNodeIds(s: State, inc: IncidentState): (ids: seq<string>)
    ensures forall id :: id in ids <==> id in s.nodes && id !in inc.nodeTombstones
  {
    Filter(SortedStrings(s.nodes.Keys), NodeAlive(inc))
  }

  function LiveEdgeKeys(s: State, inc: IncidentState): (ks: seq<E.EdgeKey>)
    ensures forall k :: k in ks <==>
                        && k in s.edges && k !in inc.edgeTombstones
                        && k.source !in inc.nodeTombstones && k.target !in inc.nodeTombstones
  {
    Filter(E.SortedEdgeKeys(s.edges.Keys), EdgeAlive(inc))
  }

  function LiveView(s: State, incident: string): Result<Proto.CausalGraph, StoreError> {
    if incident !in s.incidents then Err(IncidentNotFound(incident))
    else
      var inc := s.incidents[incident];
      Ok(Proto.CausalGraph(ListNodes(s.nodes, LiveNodeIds(s, inc)), ListEdges(s.edges, LiveEdgeKeys(s, inc))))
  }

  function TombstonesOf(inc: IncidentState): Proto.TombstoneSet {
    Proto.TombstoneSet(SortedStrings(inc.nodeTombstones), ListEntries(E.SortedEdgeKeys(inc.edgeTombstones)))
  }

  function Tombstones(s: State, incident: string): Result<Proto.TombstoneSet, StoreError> {
    if incident !in s.incidents then Err(IncidentNotFound(incident))
    else Ok(TombstonesOf(s.incidents[incident]))
  }

  function IncidentContext(s: State, incident: string): Result<Proto.IncidentContext, StoreError> {
    if incident !in s.incidents then Err(IncidentNotFound(incident))
    else
      var inc := s.incidents[incident];
      Ok(Proto.IncidentContext(
           incident, Proto.Timestamp(inc.createdAt.seconds, inc.createdAt.nanos), TombstonesOf(inc)))
  }

  function ReadResponse(s: State, op: Op): Response
    requires IsRead(op)
  {
    match op
    case GetIncidentContext(i) => ContextReply(IncidentContext(s, i))
    case GetLiveView(i) => GraphReply(LiveView(s, i))
    case GetTombstones(i) => TombstoneSetReply(Tombstones(s, i))
    case GetMainGraph => GraphReply(Ok(MainGraph(s)))
  }

  function Respond(s: State, op: Op): Response {
    if IsRead(op) then ReadResponse(s, op)
    else WriteResponse(op, Missing(s, op), Reports(s, Entries(s, op)))
  }

  /** What a write whose incident exists does, given the entries its plan yields. */
  lemma WriteOutcome(s: State, op: Op, es: seq<Event>)
    requires !IsRead(op) && !Missing(s, op) && Prefix(Plan(op)) == es
    ensures Entries(s, op) == es
    ensures Perform(s, op) == Replay(s, es)
    ensures Respond(s, op) == WriteResponse(op, false, Reports(s, es))
  {
  }

  lemma MissingOutcome(s: State, op: Op)
    requires !IsRead(op) && Missing(s, op)
    ensures Entries(s, op) == []
    ensures Perform(s, op) == s
    ensures Respond(s, op) == WriteResponse(op, true, [])
  {
  }

  // ---- Runs ----

  function Run(s: State, ops: seq<Op>): State {
    if ops == [] then s else Perform(Run(s, ops[..|ops| - 1]), ops[|ops| - 1])
  }

  function Responses(s: State, ops: seq<Op>): (rs: seq<Response>)
    ensures |rs| == |ops|
  {
    if ops == [] then []
    else Responses(s, ops[..|ops| - 1]) + [Respond(Run(s, ops[..|ops| - 1]), ops[|ops| - 1])]
  }

  /** The log of a run: the entries its operations process, in order. */
  function Log(s: State, ops: seq<Op>): seq<Event> {
    if ops == [] then []
    else Log(s, ops[..|ops| - 1]) + Entries(Run(s, ops[..|ops| - 1]), ops[|ops| - 1])
  }

  /** A run of operations is the replay of its log, however the log was cut into batches. */
  lemma {:induction false} RunIsReplay(s: State, ops: seq<Op>)
    ensures Run(s, ops) == Replay(s, Log(s, ops))
  {
    if ops != [] {
      var init, last := ops[..|ops| - 1], ops[|ops| - 1];
      RunIsReplay(s, init);
      ReplayConcat(s, Log(s, init), Entries(Run(s, init), last));
    }
  }

  lemma RunNothing(s: State)
    ensures Run(s, []) == s && Responses(s, []) == [] && Log(s, []) == []
  {
  }

  lemma RunSnoc(s: State, ops: seq<Op>, op: Op)
    ensures Run(s, ops + [op]) == Perform(Run(s, ops), op)
    ensures Responses(s, ops + [op]) == Responses(s, ops) + [Respond(Run(s, ops), op)]
    ensures Log(s, ops + [op]) == Log(s, ops) + Entries(Run(s, ops), op)
  {
    hide Perform, Respond, Entries;
    assert (ops + [op])[..|ops|] == ops;
  }

  /** Runs compose: the later one starts where the earlier one ended. */
  lemma {:induction false} RunConcat(s: State, a: seq<Op>, b: seq<Op>)
    ensures Run(s, a + b) == Run(Run(s, a), b)
    ensures Responses(s, a + b) == Responses(s, a) + Responses(Run(s, a), b)
    ensures Log(s, a + b) == Log(s, a) + Log(Run(s, a), b)
  {
    hide Run, Responses, Log, Perform, Respond, Entries;
    RunNothing(Run(s, a));
    if b == [] {
      assert a + b == a;
    } else {
      var init, last := b[..|b| - 1], b[|b| - 1];
      RunConcat(s, a, init);
      assert a + b == (a + init) + [last] && b == init + [last];
      RunSnoc(s, a + init, last);
      RunSnoc(Run(s, a), init, last);
    }
  }
}
