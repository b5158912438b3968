/** The in-memory store: three maps, updated entry by entry, with a ghost log of what was processed. */
module MemoryStore {
  import opened Wrappers
  import opened Events
  import opened GraphLattices
  import opened ProtoConvert
  import opened StoreSpec
  import Proto
  import N = NodeLattices
  import E = EdgeLattices
  import P = Provenances

  class InMemoryStore {
    var nodes: NodeMap
    var edges: EdgeMap
    var incidents: map<string, IncidentState>

    /** Every entry processed since the store was created. */
    ghost var log: seq<Event>

    function View(): State
      reads this
    {
      State(nodes, edges, incidents)
    }

    /** The state is the replay of the log, and nothing else has ever touched it. */
    ghost predicate Valid()
      reads this
    {
      View() == Replay(EMPTY, log)
    }

    constructor ()
      ensures Valid() && View() == EMPTY && log == []
    {
      nodes, edges, incidents, log := map[], map[], map[], [];
    }

    // ---- Single iterations of the write loops ----

    method PutNodeEntry(id: string, lattice: Proposal) returns (report: Report)
      requires Valid()
      modifies this
      ensures Valid() && log == old(log) + [PutNode(id, lattice)]
      ensures View() == Step(old(View()), PutNode(id, lattice))
      ensures report == ReportOf(old(View()), PutNode(id, lattice))
    {
      ReplaySnoc(EMPTY, log, PutNode(id, lattice));
      log := log + [PutNode(id, lattice)];
      if id in nodes {
        var existing := nodes[id];
        var candidate := new N.MutableNode.Clone(existing);
        var _ := candidate.Merge(lattice);
        if candidate.Value().HasConflict() {
          var conflict := candidate.Value().ConflictField();
          var field := if conflict.Some? then conflict.value else "unknown";
          report := Report(Rejected(field, ExistingValue(existing, field)), id);
        } else {
          nodes := nodes[id := candidate.Value()];
          report := Report(Merged, id);
        }
      } else {
        nodes := nodes[id := lattice];
        report := Report(Created, id);
      }
    }

    method PutEdgeEntry(key: E.EdgeKey, lattice: E.EdgeLattice, edgeId: string) returns (report: Report)
      requires Valid() && edgeId == EdgeId(key)
      modifies this
      ensures Valid() && log == old(log) + [PutEdge(key, lattice)]
      ensures View() == Step(old(View()), PutEdge(key, lattice))
      ensures report == ReportOf(old(View()), PutEdge(key, lattice))
    {
      ReplaySnoc(EMPTY, log, PutEdge(key, lattice));
      log := log + [PutEdge(key, lattice)];
      if key in edges {
        var existing := new E.MutableEdge.Clone(edges[key]);
        var _ := existing.Merge(lattice);
        edges := edges[key := existing.Value()];
        report := Report(Merged, edgeId);
      } else {
        edges := edges[key := lattice];
        report := Report(Created, edgeId);
      }
    }

    method BuryNodeEntry(incident: string, nodeId: string) returns (report: Report)
      requires Valid() && incident in incidents
      modifies this
      ensures Valid() && log == old(log) + [BuryNode(incident, nodeId)]
      ensures View() == Step(old(View()), BuryNode(incident, nodeId)) && incident in incidents
      ensures report == ReportOf(old(View()), BuryNode(incident, nodeId))
    {
      ReplaySnoc(EMPTY, log, BuryNode(incident, nodeId));
      log := log + [BuryNode(incident, nodeId)];
      var inc := incidents[incident];
      if nodeId in inc.nodeTombstones {
        assert inc.nodeTombstones + {nodeId} == inc.nodeTombstones;
        report := Report(AlreadyTombstoned, nodeId);
      } else {
        incidents := incidents[incident := inc.(nodeTombstones := inc.nodeTombstones + {nodeId})];
        report := Report(if nodeId in nodes then Applied else Unmatched, nodeId);
      }
    }

    method BuryEdgeEntry(incident: string, key: E.EdgeKey, edgeId: string) returns (report: Report)
      requires Valid() && incident in incidents && edgeId == EdgeId(key)
      modifies this
      ensures Valid() && log == old(log) + [BuryEdge(incident, key)]
      ensures View() == Step(old(View()), BuryEdge(incident, key)) && incident in incidents
      ensures report == ReportOf(old(View()), BuryEdge(incident, key))
    {
      ReplaySnoc(EMPTY, log, BuryEdge(incident, key));
      log := log + [BuryEdge(incident, key)];
      var inc := incidents[incident];
      if key in inc.edgeTombstones {
        assert inc.edgeTombstones + {key} == inc.edgeTombstones;
        report := Report(AlreadyTombstoned, edgeId);
      } else {
        incidents := incidents[incident := inc.(edgeTombstones := inc.edgeTombstones + {key})];
        report := Report(if key in edges then Applied else Unmatched, edgeId);
      }
    }

    // ---- The write loops ----

    /** The node loop: entries are processed until one does not convert. */
    method ProcessNodes(ns: seq<Proto.Node>)
      returns (failure: Option<ConversionError>, result: Proto.HypothesisMergeResult, ghost done: seq<Event>)
      requires Valid()
      modifies this
      ensures Valid() && log == old(log) + done
      ensures done == Prefix(NodePlan(ns)) && failure == Failure(NodePlan(ns))
      ensures View() == Replay(old(View()), done)
      ensures result == HypothesisResult(Reports(old(View()), done))
    {
      hide IdsWith, ConflictsIn, Reports, Replay, ReportOf, Prefix, Failure, NodePlan, Step;
      ghost var start, plan := View(), NodePlan(ns);
      var createdIds: seq<string>, mergedIds: seq<string>, conflicts: seq<Proto.MergeConflict> := [], [], [];
      failure, done := None, [];
      ReplayNothing(start);
      NoReports();
      for i := 0 to |ns|
        invariant Valid() && log == old(log) + done
        invariant View() == Replay(start, done)
        invariant |done| == i && forall j | 0 <= j < i :: plan[j] == Ok(done[j])
        invariant Proto.HypothesisMergeResult(createdIds, mergedIds, conflicts) == HypothesisResult(Reports(start, done))
      {
        assert plan[i] == NodeConversion(ns[i]);
        var nodeId := ns[i].id;
        match ProtoNodeToDomain(ns[i]) {
          case Err(e) =>
            PrefixIsUnique(plan, done);
            return Some(e), Proto.HypothesisMergeResult(createdIds, mergedIds, conflicts), done;
          case Ok((id, lattice)) =>
            var entry := PutNode(id, lattice);
            ReplaySnoc(start, done, entry);
            OneMoreReport(Reports(start, done), ReportOf(View(), entry));
            var report := PutNodeEntry(id, lattice);
            match report.outcome {
              case Created => createdIds := createdIds + [nodeId];
              case Merged => mergedIds := mergedIds + [nodeId];
              case Rejected(field, existingValue) =>
                conflicts := conflicts + [Proto.MergeConflict(nodeId, field, existingValue, "")];
              case _ =>
            }
            done := done + [entry];
        }
      }
      PrefixIsUnique(plan, done);
      result := Proto.HypothesisMergeResult(createdIds, mergedIds, conflicts);
    }

    /** The edge loop. */
    method ProcessEdges(es: seq<Proto.Edge>)
      returns (failure: Option<ConversionError>, result: Proto.HypothesisMergeResult, ghost done: seq<Event>)
      requires Valid()
      modifies this
      ensures Valid() && log == old(log) + done
      ensures done == Prefix(EdgePlan(es)) && failure == Failure(EdgePlan(es))
      ensures View() == Replay(old(View()), done)
      ensures result == HypothesisResult(Reports(old(View()), done))
    {
      hide IdsWith, ConflictsIn, Reports, Replay, ReportOf, Prefix, Failure, EdgePlan, Step, Decimal, Digits;
      ghost var start, plan := View(), EdgePlan(es);
      var createdIds: seq<string>, mergedIds: seq<string> := [], [];
      failure, done := None, [];
      ReplayNothing(start);
      NoReports();
      for i := 0 to |es|
        invariant Valid() && log == old(log) + done
        invariant View() == Replay(start, done)
        invariant |done| == i && forall j | 0 <= j < i :: plan[j] == Ok(done[j])
        invariant Proto.HypothesisMergeResult(createdIds, mergedIds, []) == HypothesisResult(Reports(start, done))
      {
        assert plan[i] == EdgeConversion(es[i]);
        var edgeId := RenderEdgeId(es[i].source, es[i].target, es[i].typeNumber);
        match ProtoEdgeToDomain(es[i]) {
          case Err(e) =>
            PrefixIsUnique(plan, done);
            return Some(e), Proto.HypothesisMergeResult(createdIds, mergedIds, []), done;
          case Ok((key, lattice)) =>
            var entry := PutEdge(key, lattice);
            ReplaySnoc(start, done, entry);
            OneMoreReport(Reports(start, done), ReportOf(View(), entry));
            var report := PutEdgeEntry(key, lattice, edgeId);
            if report.outcome == Created {
              createdIds := createdIds + [edgeId];
            } else {
              mergedIds := mergedIds + [edgeId];
            }
            done := done + [entry];
        }
      }
      PrefixIsUnique(plan, done);
      result := Proto.HypothesisMergeResult(createdIds, mergedIds, []);
    }

    // ---- Writes ----

    method MergeHypothesis(delta: Proto.HypothesisDelta)
      returns (r: Result<Proto.HypothesisMergeResult, StoreError>)
      requires Valid()
      modifies this
      ensures Valid()
      ensures View() == Perform(old(View()), Op.MergeHypothesis(delta))
      ensures HypothesisReply(r) == Respond(old(View()), Op.MergeHypothesis(delta))
      ensures log == old(log) + Entries(old(View()), Op.MergeHypothesis(delta))
    {
      hide Perform, Respond, Entries, Reports, Replay, ReportOf, Prefix, Failure, Plan, NodePlan, EdgePlan, HypothesisResult, WriteResponse;
      HypothesisOutcome(View(), delta);
      var nodeFailure, nodeResult, nodesDone := ProcessNodes(delta.nodes);
      if nodeFailure.Some? {
        return Err(Backend(nodeFailure.value));
      }
      var edgeFailure, edgeResult, edgesDone := ProcessEdges(delta.edges);
      assert log == old(log) + (nodesDone + edgesDone);
      if edgeFailure.Some? {
        return Err(Backend(edgeFailure.value));
      }
      return Ok(Proto.HypothesisMergeResult(
                  nodeResult.createdIds + edgeResult.createdIds,
                  nodeResult.mergedIds + edgeResult.mergedIds,
                  nodeResult.conflicts + edgeResult.conflicts));
    }

    method CreateIncident(incident: string, now: P.Timestamp) returns (r: Proto.CreateIncidentResult)
      requires Valid()
      modifies this
      ensures Valid()
      ensures View() == Perform(old(View()), Op.CreateIncident(incident, now))
      ensures IncidentReply(r) == Respond(old(View()), Op.CreateIncident(incident, now))
      ensures log == old(log) + Entries(old(View()), Op.CreateIncident(incident, now))
      ensures r.created <==> incident !in old(incidents)
    {
      hide IdsWith, ConflictsIn, Reports, Replay, Entries, Perform;
      OpeningAnswer(View(), incident, now);
      ReplaySnoc(EMPTY, log, Open(incident, now));
      log := log + [Open(incident, now)];
      var created := incident !in incidents;
      if created {
        incidents := incidents[incident := IncidentState(now, {}, {})];
      }
      return Proto.CreateIncidentResult(incident, created);
    }

    method MergeNodeTombstones(request: Proto.NodeTombstoneRequest)
      returns (r: Result<Proto.TombstoneMergeResult, StoreError>)
      requires Valid()
      modifies this
      ensures Valid()
      ensures View() == Perform(old(View()), Op.MergeNodeTombstones(request))
      ensures TombstoneReply(r) == Respond(old(View()), Op.MergeNodeTombstones(request))
      ensures log == old(log) + Entries(old(View()), Op.MergeNodeTombstones(request))
    {
      hide Perform, Respond, Entries, IdsWith, ConflictsIn, Reports, Replay, ReportOf, Prefix, Failure, BuryPlan, Step, RenderEdgeId, EdgeId, TombstoneResult;
      var i := request.incident;
      ReplayNothing(View());
      if i !in incidents {
        MissingOutcome(View(), Op.MergeNodeTombstones(request));
        return Err(IncidentNotFound(i));
      }
      ghost var start, plan := View(), BuryPlan(i, request.nodeIds);
      ghost var done: seq<Event> := [];
      var applied: seq<string>, already: seq<string>, unmatched: seq<string> := [], [], [];
      EmptyTombstoneResult();
      for n := 0 to |request.nodeIds|
        invariant Valid() && log == old(log) + done
        invariant i in incidents && View() == Replay(start, done)
        invariant |done| == n && forall j | 0 <= j < n :: plan[j] == Ok(done[j])
        invariant Proto.TombstoneMergeResult(applied, already, unmatched) == TombstoneResult(Reports(start, done))
      {
        var nodeId := request.nodeIds[n];
        ghost var entry := BuryNode(i, nodeId);
        OneMoreBurial(start, done, entry);
        var report := BuryNodeEntry(i, nodeId);
        match report.outcome {
          case AlreadyTombstoned => already := already + [nodeId];
          case Applied => applied := applied + [nodeId];
          case _ => unmatched := unmatched + [nodeId];
        }
        done := done + [entry];
      }
      PrefixIsUnique(plan, done);
      WriteOutcome(start, Op.MergeNodeTombstones(request), done);
      return Ok(Proto.TombstoneMergeResult(applied, already, unmatched));
    }

    method MergeEdgeTombstones(request: Proto.EdgeTombstoneRequest)
      returns (r: Result<Proto.TombstoneMergeResult, StoreError>)
      requires Valid()
      modifies this
      ensures Valid()
      ensures View() == Perform(old(View()), Op.MergeEdgeTombstones(request))
      ensures TombstoneReply(r) == Respond(old(View()), Op.MergeEdgeTombstones(request))
      ensures log == old(log) + Entries(old(View()), Op.MergeEdgeTombstones(request))
    {
      hide Perform, Respond, Entries, IdsWith, ConflictsIn, Reports, Replay, ReportOf, Prefix, Failure, EntryPlan, Step, RenderEdgeId, EdgeTypeFromNumber, EdgeTypeToNumber, TombstoneResult;
      var i := request.incident;
      ReplayNothing(View());
      if i !in incidents {
        MissingOutcome(View(), Op.MergeEdgeTombstones(request));
        return Err(IncidentNotFound(i));
      }
      ghost var start, plan := View(), EntryPlan(i, request.entries);
      ghost var done: seq<Event> := [];
      var applied: seq<string>, already: seq<string>, unmatched: seq<string> := [], [], [];
      EmptyTombstoneResult();
      for n := 0 to |request.entries|
        invariant Valid() && log == old(log) + done
        invariant i in incidents && View() == Replay(start, done)
        invariant |done| == n && forall j | 0 <= j < n :: plan[j] == Ok(done[j])
        invariant Proto.TombstoneMergeResult(applied, already, unmatched) == TombstoneResult(Reports(start, done))
      {
        var tombstone := request.entries[n];
        assert plan[n] == EntryConversion(i, tombstone);
        var edgeType := EdgeTypeFromNumber(tombstone.typeNumber);
        if edgeType.Err? {
          PrefixIsUnique(plan, done);
          WriteOutcome(start, Op.MergeEdgeTombstones(request), done);
          return Err(Backend(edgeType.error));
        }
        var key := E.EdgeKey(tombstone.source, tombstone.target, edgeType.value);
        var edgeId := RenderEdgeId(tombstone.source, tombstone.target, tombstone.typeNumber);
        ghost var entry := BuryEdge(i, key);
        OneMoreBurial(start, done, entry);
        var report := BuryEdgeEntry(i, key, edgeId);
        match report.outcome {
          case AlreadyTombstoned => already := already + [edgeId];
          case Applied => applied := applied + [edgeId];
          case _ => unmatched := unmatched + [edgeId];
        }
        done := done + [entry];
      }
      PrefixIsUnique(plan, done);
      WriteOutcome(start, Op.MergeEdgeTombstones(request), done);
      return Ok(Proto.TombstoneMergeResult(applied, already, unmatched));
    }

    // ---- Reads ----

    function GetIncidentContext(incident: string): (r: Result<Proto.IncidentContext, StoreError>)
      reads this
      ensures ContextReply(r) == Respond(View(), Op.GetIncidentContext(incident))
    {
      IncidentContext(View(), incident)
    }

    function GetLiveView(incident: string): (r: Result<Proto.CausalGraph, StoreError>)
      reads this
      ensures GraphReply(r) == Respond(View(), Op.GetLiveView(incident))
    {
      LiveView(View(), incident)
    }

    function GetTombstones(incident: string): (r: Result<Proto.TombstoneSet, StoreError>)
      reads this
      ensures TombstoneSetReply(r) == Respond(View(), Op.GetTombstones(incident))
    {
      Tombstones(View(), incident)
    }

    function GetMainGraph(): (g: Proto.CausalGraph)
      reads this
      ensures GraphReply(Ok(g)) == Respond(View(), Op.GetMainGraph)
    {
      MainGraph(View())
    }
  }

  // ---- How the parts of a batch fit together ----

  lemma PlanOfDelta(delta: Proto.HypothesisDelta)
    ensures var plan, ns, es := Plan(Op.MergeHypothesis(delta)), NodePlan(delta.nodes), EdgePlan(delta.edges);
            && Prefix(plan) == (if Failure(ns).Some? then Prefix(ns) else Prefix(ns) + Prefix(es))
            && Failure(plan) == (if Failure(ns).Some? then Failure(ns) else Failure(es))
  {
    assert Plan(Op.MergeHypothesis(delta)) == NodePlan(delta.nodes) + EdgePlan(delta.edges);
    PrefixOfConcatenation(NodePlan(delta.nodes), EdgePlan(delta.edges));
  }

  lemma PrefixOfConcatenation(ns: seq<Conversion>, es: seq<Conversion>)
    ensures Prefix(ns + es) == (if Failure(ns).Some? then Prefix(ns) else Prefix(ns) + Prefix(es))
    ensures Failure(ns + es) == (if Failure(ns).Some? then Failure(ns) else Failure(es))
  {
    hide Prefix, Failure;
    var plan := ns + es;
    var done := if Failure(ns).Some? then Prefix(ns) else Prefix(ns) + Prefix(es);
    forall j | 0 <= j < |done| ensures plan[j] == Ok(done[j]) {
      if j < |Prefix(ns)| {
        assert ns[j] == Ok(Prefix(ns)[j]);
      } else {
        assert es[j - |ns|] == Ok(Prefix(es)[j - |ns|]);
      }
    }
    PrefixIsUnique(plan, done);
  }

  /** What a hypothesis does and answers, from its node loop and its edge loop. */
  lemma HypothesisOutcome(start: State, delta: Proto.HypothesisDelta)
    ensures var op, ns, es := Op.MergeHypothesis(delta), Prefix(NodePlan(delta.nodes)), Prefix(EdgePlan(delta.edges));
            var badNode, badEdge, middle := Failure(NodePlan(delta.nodes)), Failure(EdgePlan(delta.edges)), Replay(start, ns);
            && Entries(start, op) == (if badNode.Some? then ns else ns + es)
            && Perform(start, op) == (if badNode.Some? then middle else Replay(middle, es))
            && Respond(start, op) ==
               HypothesisReply(
                 if badNode.Some? then Err(Backend(badNode.value))
                 else if badEdge.Some? then Err(Backend(badEdge.value))
                 else
                   var a, b := HypothesisResult(Reports(start, ns)), HypothesisResult(Reports(middle, es));
                   Ok(Proto.HypothesisMergeResult(
                        a.createdIds + b.createdIds, a.mergedIds + b.mergedIds, a.conflicts + b.conflicts)))
  {
    var op, ns, es := Op.MergeHypothesis(delta), Prefix(NodePlan(delta.nodes)), Prefix(EdgePlan(delta.edges));
    assert !IsRead(op) && !Missing(start, op);
    hide Perform, Respond, Entries, Reports, Replay, IdsWith, ConflictsIn, Plan, Prefix, Failure, NodePlan, EdgePlan, IsRead, Missing;
    PlanOfDelta(delta);
    WriteOutcome(start, op, Prefix(Plan(op)));
    ReplayConcat(start, ns, es);
    ResultConcat(Reports(start, ns), Reports(Replay(start, ns), es));
  }

  /** What one more burial adds to the state and to the answer. */
  lemma OneMoreBurial(start: State, done: seq<Event>, entry: Event)
    requires (entry.BuryNode? || entry.BuryEdge?) && entry.incident in Replay(start, done).incidents
    ensures Replay(start, done + [entry]) == Step(Replay(start, done), entry)
    ensures var before, after := TombstoneResult(Reports(start, done)), TombstoneResult(Reports(start, done + [entry]));
            var report := ReportOf(Replay(start, done), entry);
            match report.outcome
            case AlreadyTombstoned => after == before.(alreadyTombstonedIds := before.alreadyTombstonedIds + [report.id])
            case Applied => after == before.(appliedIds := before.appliedIds + [report.id])
            case _ => after == before.(unmatchedIds := before.unmatchedIds + [report.id])
  {
    hide Replay, Reports, ReportOf, IdsWith, ConflictsIn, Step;
    ReplaySnoc(start, done, entry);
    OneMoreReport(Reports(start, done), ReportOf(Replay(start, done), entry));
  }

  /** An answer with nothing to report. */
  lemma EmptyTombstoneResult()
    ensures TombstoneResult([]) == Proto.TombstoneMergeResult([], [], [])
  {
    NoReports();
  }

  lemma OpeningAnswer(s: State, incident: string, now: P.Timestamp)
    ensures var op := Op.CreateIncident(incident, now);
            && Entries(s, op) == [Open(incident, now)]
            && Perform(s, op) == Step(s, Open(incident, now))
            && Respond(s, op) == IncidentReply(Proto.CreateIncidentResult(incident, incident !in s.incidents))
  {
    var op, e := Op.CreateIncident(incident, now), Open(incident, now);
    PrefixIsUnique(Plan(op), [e]);
    hide Prefix, Replay, Reports, IdsWith;
    assert [] + [e] == [e];
    ReplayNothing(s);
    ReplaySnoc(s, [], e);
    NoReports();
    var r := ReportOf(s, e);
    assert [] + [r] == [r];
    OneMoreReport([], r);
  }

  lemma {:induction false} ResultConcat(a: seq<Report>, b: seq<Report>)
    ensures forall o :: IdsWith(a + b, o) == IdsWith(a, o) + IdsWith(b, o)
    ensures ConflictsIn(a + b) == ConflictsIn(a) + ConflictsIn(b)
  {
    hide IdsWith, ConflictsIn;
    NoReports();
    if b == [] {
      assert a + b == a;
    } else {
      var init, last := b[..|b| - 1], b[|b| - 1];
      ResultConcat(a, init);
      assert a + b == (a + init) + [last] && b == init + [last];
      OneMoreReport(a + init, last);
      OneMoreReport(init, last);
    }
  }
}
