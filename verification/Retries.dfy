/** Failed, retried and corrected requests, as their clients see them. */
module Retries {
  import opened Wrappers
  import opened Events
  import opened Growth
  import opened Absorption
  import opened ProtoConvert
  import opened StoreSpec
  import opened Validation
  import Proto

  // ---- Partial failure ----

  predicate BadNodeType(n: Proto.Node) {
    !(Proto.NODE_TYPE_SERVICE <= n.typeNumber <= Proto.NODE_TYPE_MECHANISM)
  }

  predicate BadEdgeType(number: int) {
    !(Proto.EDGE_TYPE_DEPENDS_ON <= number <= Proto.EDGE_TYPE_MANIFESTS_AS)
  }

  predicate NodesConvert(d: Proto.HypothesisDelta) {
    forall n | n in d.nodes :: !BadNodeType(n)
  }

  predicate EdgesConvert(d: Proto.HypothesisDelta) {
    forall e | e in d.edges :: !BadEdgeType(e.typeNumber)
  }

  lemma FailsIffSomeEntryFails(plan: seq<Conversion>)
    ensures Failure(plan).Some? <==> exists i :: 0 <= i < |plan| && plan[i].Err?
  {
    var n := |Prefix(plan)|;
    if i :| 0 <= i < |plan| && plan[i].Err? {
      assert i < n ==> plan[i] == Ok(Prefix(plan)[i]);
    }
  }

  lemma PlanFailsIffBadTypeNumber(d: Proto.HypothesisDelta)
    ensures (exists i :: 0 <= i < |Plan(MergeHypothesis(d))| && Plan(MergeHypothesis(d))[i].Err?) <==>
            (exists n :: n in d.nodes && BadNodeType(n)) || (exists e :: e in d.edges && BadEdgeType(e.typeNumber))
  {
    var plan := Plan(MergeHypothesis(d));
    assert plan == NodePlan(d.nodes) + EdgePlan(d.edges);
    assert forall n :: NodeConversion(n).Err? <==> BadNodeType(n);
    assert forall e :: EdgeConversion(e).Err? <==> BadEdgeType(e.typeNumber);
    hide Plan, NodePlan, EdgePlan, NodeConversion, EdgeConversion, BadNodeType, BadEdgeType;
    forall n | n in d.nodes && BadNodeType(n) ensures exists i :: 0 <= i < |plan| && plan[i].Err? {
      var i :| 0 <= i < |d.nodes| && d.nodes[i] == n;
      assert plan[i] == NodeConversion(n);
    }
    forall e | e in d.edges && BadEdgeType(e.typeNumber) ensures exists i :: 0 <= i < |plan| && plan[i].Err? {
      var i :| 0 <= i < |d.edges| && d.edges[i] == e;
      assert plan[|d.nodes| + i] == EdgeConversion(e);
    }
    if i :| 0 <= i < |plan| && plan[i].Err? {
      if i < |d.nodes| {
        assert d.nodes[i] in d.nodes && BadNodeType(d.nodes[i]);
      } else {
        assert plan[i] == EdgeConversion(d.edges[i - |d.nodes|]);
        assert d.edges[i - |d.nodes|] in d.edges && BadEdgeType(d.edges[i - |d.nodes|].typeNumber);
      }
    }
  }

  /**
   A hypothesis batch fails exactly when one of its type numbers has no domain type. Validation has
   already turned away the number zero, so for a validated batch that is a number out of range.
   */
  lemma FailsIffBadTypeNumber(s: State, d: Proto.HypothesisDelta)
    ensures Respond(s, MergeHypothesis(d)).hypothesis.Err? <==>
            (exists n :: n in d.nodes && BadNodeType(n)) || (exists e :: e in d.edges && BadEdgeType(e.typeNumber))
    ensures ValidateHypothesisDelta(d).Ok? ==>
              (Respond(s, MergeHypothesis(d)).hypothesis.Err? <==>
               || (exists n :: n in d.nodes && (n.typeNumber < 0 || n.typeNumber > 4))
               || (exists e :: e in d.edges && (e.typeNumber < 0 || e.typeNumber > 3)))
  {
    var plan := Plan(MergeHypothesis(d));
    assert Respond(s, MergeHypothesis(d)).hypothesis.Err? <==> Failure(plan).Some?;
    hide Respond, Plan, Failure, Prefix;
    FailsIffSomeEntryFails(plan);
    PlanFailsIffBadTypeNumber(d);
    assert forall n | n in d.nodes && ValidateNode(n).Ok? :: BadNodeType(n) <==> n.typeNumber < 0 || n.typeNumber > 4;
    assert forall e | e in d.edges && ValidateEdge(e).Ok? :: BadEdgeType(e.typeNumber) <==> e.typeNumber < 0 || e.typeNumber > 3;
  }

  /** The first `n` entries of a delta, nodes before edges. */
  function Truncate(d: Proto.HypothesisDelta, n: nat): Proto.HypothesisDelta
    requires n <= |d.nodes| + |d.edges|
  {
    if n <= |d.nodes| then Proto.HypothesisDelta(d.nodes[..n], [])
    else Proto.HypothesisDelta(d.nodes, d.edges[..n - |d.nodes|])
  }

  lemma PlanOfTruncated(d: Proto.HypothesisDelta, n: nat)
    requires n <= |d.nodes| + |d.edges|
    ensures Plan(MergeHypothesis(Truncate(d, n))) == Plan(MergeHypothesis(d))[..n]
  {
    var t := Truncate(d, n);
    assert Plan(MergeHypothesis(t)) == NodePlan(t.nodes) + EdgePlan(t.edges);
    assert Plan(MergeHypothesis(d)) == NodePlan(d.nodes) + EdgePlan(d.edges);
  }

  /** Where a batch stops: the number of entries before the first that does not convert. */
  function Stop(op: Op): nat {
    |Prefix(Plan(op))|
  }

  lemma FailsIffStopsEarly(s: State, d: Proto.HypothesisDelta)
    ensures var op := MergeHypothesis(d);
            && !IsRead(op) && !Missing(s, op)
            && (Respond(s, op).hypothesis.Err? <==> Stop(op) < |Plan(op)|)
            && (Respond(s, op).hypothesis.Ok? <==> Stop(op) == |Plan(op)|)
            && (Failure(Plan(op)).Some? ==> Respond(s, op) == HypothesisReply(Err(Backend(Failure(Plan(op)).value))))
  {
  }

  /** What is wrong with the `n`-th entry of a delta. */
  function ErrorAt(d: Proto.HypothesisDelta, n: nat): ConversionError
    requires n < |d.nodes| + |d.edges|
  {
    if n < |d.nodes| then InvalidNodeType(d.nodes[n].typeNumber) else InvalidEdgeType(d.edges[n - |d.nodes|].typeNumber)
  }

  lemma StopsAtBadType(d: Proto.HypothesisDelta)
    requires Stop(MergeHypothesis(d)) < |Plan(MergeHypothesis(d))|
    ensures var n := Stop(MergeHypothesis(d));
            && n < |d.nodes| + |d.edges|
            && (if n < |d.nodes| then BadNodeType(d.nodes[n]) else BadEdgeType(d.edges[n - |d.nodes|].typeNumber))
            && Failure(Plan(MergeHypothesis(d))) == Some(ErrorAt(d, n))
  {
    var plan, n := Plan(MergeHypothesis(d)), Stop(MergeHypothesis(d));
    assert plan == NodePlan(d.nodes) + EdgePlan(d.edges);
    assert plan[n].Err?;
    assert plan[n] == if n < |d.nodes| then NodeConversion(d.nodes[n]) else EdgeConversion(d.edges[n - |d.nodes|]);
  }

  /**
   A failed batch has processed exactly the entries before its first bad one: it leaves the state
   that those entries, submitted as a batch of their own, would have left with success.
   */
  lemma FailureIsExactPrefix(s: State, d: Proto.HypothesisDelta)
    requires Respond(s, MergeHypothesis(d)).hypothesis.Err?
    ensures var n := Stop(MergeHypothesis(d));
            && n < |d.nodes| + |d.edges|
            && (if n < |d.nodes| then BadNodeType(d.nodes[n]) else BadEdgeType(d.edges[n - |d.nodes|].typeNumber))
            && Respond(s, MergeHypothesis(d)) == HypothesisReply(Err(Backend(ErrorAt(d, n))))
            && Respond(s, MergeHypothesis(Truncate(d, n))).hypothesis.Ok?
            && Perform(s, MergeHypothesis(d)) == Perform(s, MergeHypothesis(Truncate(d, n)))
  {
    var op := MergeHypothesis(d);
    hide *;
    FailsIffStopsEarly(s, d);
    StopsAtBadType(d);
    var n, p := Stop(op), Prefix(Plan(op));
    var t := MergeHypothesis(Truncate(d, n));
    StopIsPrefixLength(op);
    PlanOfTruncated(d, n);
    PrefixIsUnique(Plan(t), p);
    StopIsPrefixLength(t);
    FailsIffStopsEarly(s, Truncate(d, n));
    WriteOutcome(s, op, p);
    WriteOutcome(s, t, p);
  }

  // ---- The same for edge tombstones ----

  lemma EntryPlanStops(r: Proto.EdgeTombstoneRequest)
    ensures var op := MergeEdgeTombstones(r);
            var n := Stop(op);
            && n <= |r.entries| == |Plan(op)|
            && (forall j | 0 <= j < n :: !BadEdgeType(r.entries[j].typeNumber))
            && (n < |r.entries| ==> BadEdgeType(r.entries[n].typeNumber))
            && Failure(Plan(op)) == if n < |r.entries| then Some(InvalidEdgeType(r.entries[n].typeNumber)) else None
  {
    var plan, n := EntryPlan(r.incident, r.entries), Stop(MergeEdgeTombstones(r));
    assert Plan(MergeEdgeTombstones(r)) == plan;
    hide Prefix, Failure, EntryPlan;
    forall j | 0 <= j < n ensures !BadEdgeType(r.entries[j].typeNumber) {
      assert plan[j] == Ok(Prefix(plan)[j]) && plan[j] == EntryConversion(r.incident, r.entries[j]);
    }
    if n < |r.entries| {
      assert plan[n] == EntryConversion(r.incident, r.entries[n]);
    }
  }

  lemma EdgeTombstoneReply(s: State, r: Proto.EdgeTombstoneRequest)
    ensures var op := MergeEdgeTombstones(r);
            && !IsRead(op)
            && (Missing(s, op) <==> r.incident !in s.incidents)
            && Respond(s, op) ==
               TombstoneReply(
                 if r.incident !in s.incidents then Err(IncidentNotFound(r.incident))
                 else if Failure(Plan(op)).Some? then Err(Backend(Failure(Plan(op)).value))
                 else Ok(TombstoneResult(Reports(s, Prefix(Plan(op))))))
  {
    hide Plan, Prefix, Failure, IdsWith, Reports;
  }

  /**
   An edge-tombstone request fails exactly when its incident is unknown or one of its type numbers has
   no domain type, and the error names the first such number.
   */
  lemma EdgeTombstonesFailIff(s: State, r: Proto.EdgeTombstoneRequest)
    ensures var op := MergeEdgeTombstones(r);
            var n, answer := Stop(op), Respond(s, op).tombstones;
            && (answer == Err(IncidentNotFound(r.incident)) <==> r.incident !in s.incidents)
            && (answer.Err? <==> r.incident !in s.incidents || exists e :: e in r.entries && BadEdgeType(e.typeNumber))
            && (answer.Err? && r.incident in s.incidents ==>
                  && n < |r.entries| && BadEdgeType(r.entries[n].typeNumber)
                  && (forall j | 0 <= j < n :: !BadEdgeType(r.entries[j].typeNumber))
                  && answer == Err(Backend(InvalidEdgeType(r.entries[n].typeNumber))))
  {
    hide Respond, Plan, Prefix, Failure, Stop, Reports, IdsWith, BadEdgeType;
    EdgeTombstoneReply(s, r);
    EntryPlanStops(r);
    FirstBadEntry(r.entries, Stop(MergeEdgeTombstones(r)));
  }

  lemma FirstBadEntry(es: seq<Proto.EdgeTombstoneEntry>, n: nat)
    requires n <= |es| && forall j | 0 <= j < n :: !BadEdgeType(es[j].typeNumber)
    requires n < |es| ==> BadEdgeType(es[n].typeNumber)
    ensures n < |es| <==> exists e :: e in es && BadEdgeType(e.typeNumber)
  {
    hide BadEdgeType;
    if n < |es| {
      assert es[n] in es;
    }
  }

  /**
   One that stops half way leaves the state that the entries before its first bad one, submitted as a
   request of their own, would have left with success.
   */
  lemma FailedEdgeTombstonesAreExactPrefix(s: State, r: Proto.EdgeTombstoneRequest)
    requires r.incident in s.incidents && Respond(s, MergeEdgeTombstones(r)).tombstones.Err?
    ensures var n := Stop(MergeEdgeTombstones(r));
            && n < |r.entries| && BadEdgeType(r.entries[n].typeNumber)
            && var t := MergeEdgeTombstones(r.(entries := r.entries[..n]));
               && Respond(s, t).tombstones.Ok?
               && Perform(s, MergeEdgeTombstones(r)) == Perform(s, t)
  {
    hide *;
    var op := MergeEdgeTombstones(r);
    EdgeTombstonesFailIff(s, r);
    var n, p, cut := Stop(op), Prefix(Plan(op)), r.(entries := r.entries[..Stop(op)]);
    var t := MergeEdgeTombstones(cut);
    StopIsPrefixLength(op);
    EntryPlanStops(r);
    EntryPlanOfPrefix(r, n);
    PrefixIsUnique(Plan(t), p);
    StopIsPrefixLength(t);
    EntryPlanStops(cut);
    EdgeTombstoneReply(s, r);
    EdgeTombstoneReply(s, cut);
    WriteOutcome(s, op, p);
    WriteOutcome(s, t, p);
  }

  lemma EntryPlanOfPrefix(r: Proto.EdgeTombstoneRequest, n: nat)
    requires n <= |r.entries|
    ensures |Plan(MergeEdgeTombstones(r))| == |r.entries|
    ensures Plan(MergeEdgeTombstones(r.(entries := r.entries[..n]))) == Plan(MergeEdgeTombstones(r))[..n]
  {
    hide EntryConversion;
  }

  /** Both writes address the same incident, or none. */
  predicate SameTarget(op: Op, op': Op) {
    !IsRead(op) && !IsRead(op') && Needs(op) == Needs(op')
  }

  /**
   Submitting a corrected batch after a failed one comes to the same as submitting the corrected
   batch from the start, provided it begins with the entries the failed one got through.
   */
  lemma CorrectedBatchSupersedes(s: State, failed: Op, corrected: Op)
    requires SameTarget(failed, corrected)
    requires Stop(failed) <= |Plan(corrected)| && Plan(corrected)[..Stop(failed)] == Plan(failed)[..Stop(failed)]
    ensures Perform(Perform(s, failed), corrected) == Perform(s, corrected)
  {
    SameTargetMissing(s, failed, corrected);
    hide *;
    var p, q := Prefix(Plan(failed)), Prefix(Plan(corrected));
    assert Stop(failed) == |p| by { StopIsPrefixLength(failed); }
    PrefixesAgree(Plan(failed), Plan(corrected));
    if Missing(s, failed) {
      MissingOutcome(s, failed);
    } else {
      assert q == p + q[|p|..];
      EntriesAreAddressed(s, failed);
      RepeatedPrefixAbsorbed(s, p, q[|p|..]);
      EntriesKeepIncidents(s, p, corrected);
      WriteOutcome(s, failed, p);
      WriteOutcome(s, corrected, q);
      WriteOutcome(Replay(s, p), corrected, q);
    }
  }

  lemma SameTargetMissing(s: State, op: Op, op': Op)
    requires SameTarget(op, op')
    ensures !IsRead(op) && !IsRead(op') && (Missing(s, op) <==> Missing(s, op'))
  {
  }

  lemma StopIsPrefixLength(op: Op)
    ensures Stop(op) == |Prefix(Plan(op))|
  {
  }

  lemma PrefixesAgree(a: seq<Conversion>, b: seq<Conversion>)
    requires |Prefix(a)| <= |b| && b[..|Prefix(a)|] == a[..|Prefix(a)|]
    ensures |Prefix(a)| <= |Prefix(b)| && Prefix(b)[..|Prefix(a)|] == Prefix(a)
  {
    var p, q := Prefix(a), Prefix(b);
    forall i | 0 <= i < |p| ensures b[i] == Ok(p[i]) {
      assert a[..|p|][i] == b[..|p|][i];
    }
    assert |p| <= |q|;
    forall i | 0 <= i < |p| ensures q[i] == p[i] {
      assert b[i] == Ok(q[i]);
    }
  }

  lemma KindIsAddressed(s: State, op: Op, e: Event)
    requires KindOf(op, e) && !Missing(s, op)
    ensures Addressed(s, e)
  {
  }

  lemma EntriesAreAddressed(s: State, op: Op)
    requires !Missing(s, op)
    ensures forall e | e in Prefix(Plan(op)) :: Addressed(s, e)
  {
    hide *;
    var p := Prefix(Plan(op));
    forall e | e in p ensures Addressed(s, e) {
      var i :| 0 <= i < |p| && p[i] == e;
      assert Plan(op)[i] == Ok(e);
      PlanKeepsKind(op, i);
      KindIsAddressed(s, op, e);
    }
  }

  lemma EntriesKeepIncidents(s: State, es: seq<Event>, op: Op)
    requires !Missing(s, op)
    ensures !Missing(Replay(s, es), op)
  {
    ReplayGrows(s, es);
  }

  // ---- Retries of whole requests ----

  lemma RunGrows(s: State, ops: seq<Op>)
    ensures Grows(s, Run(s, ops))
    ensures NoStoredTop(s) ==> NoStoredTop(Run(s, ops))
  {
    RunIsReplay(s, ops);
    ReplayGrows(s, Log(s, ops));
    if NoStoredTop(s) {
      ReplayStoresNoTop(s, Log(s, ops));
    }
  }

  function MapOnReplay(rs: seq<Report>): (ms: seq<Report>)
    ensures |ms| == |rs|
    ensures forall i | 0 <= i < |rs| :: ms[i] == OnReplay(rs[i])
  {
    if rs == [] then [] else MapOnReplay(rs[..|rs| - 1]) + [OnReplay(rs[|rs| - 1])]
  }

  /**
   A request that has been processed, with success or with a backend failure, can be retried at any
   later point without any effect on the state.
   */
  lemma RetryHasNoEffect(s: State, op: Op, later: seq<Op>)
    requires !IsRead(op) && !Missing(s, op)
    ensures var t := Run(Perform(s, op), later);
            && !Missing(t, op)
            && Perform(t, op) == t
            && Reports(t, Entries(t, op)) == MapOnReplay(Reports(s, Entries(s, op)))
  {
    var es := Prefix(Plan(op));
    var u := Perform(s, op);
    var log := Log(u, later);
    var t := Run(u, later);
    hide *;
    WriteOutcome(s, op, es);
    EntriesAreAddressed(s, op);
    RunIsReplay(u, later);
    ReplayConcat(s, es, log);
    ReplayAbsorbed(s, es, log);
    EntriesKeepIncidents(s, es + log, op);
    WriteOutcome(t, op, es);
  }

  lemma MapOnReplaySnoc(rs: seq<Report>, r: Report)
    ensures MapOnReplay(rs + [r]) == MapOnReplay(rs) + [OnReplay(r)]
  {
    assert (rs + [r])[..|rs|] == rs;
  }

  lemma {:induction false} NothingNewOnRetry(rs: seq<Report>, o: Outcome)
    requires o == Created || o == Opened || o == Applied || o == Unmatched
    ensures IdsWith(MapOnReplay(rs), o) == []
  {
    hide IdsWith, ConflictsIn, MapOnReplay;
    NoReports();
    if rs != [] {
      var init, last := rs[..|rs| - 1], rs[|rs| - 1];
      NothingNewOnRetry(init, o);
      MapOnReplaySnoc(init, last);
      assert rs == init + [last];
      OneMoreReport(init, last);
      OneMoreReport(MapOnReplay(init), OnReplay(last));
    }
  }

  lemma {:induction false} SameConflictsOnRetry(rs: seq<Report>)
    ensures ConflictsIn(MapOnReplay(rs)) == ConflictsIn(rs)
  {
    hide IdsWith, ConflictsIn, MapOnReplay;
    NoReports();
    if rs != [] {
      var init, last := rs[..|rs| - 1], rs[|rs| - 1];
      SameConflictsOnRetry(init);
      MapOnReplaySnoc(init, last);
      assert rs == init + [last];
      OneMoreReport(init, last);
      OneMoreReport(MapOnReplay(init), OnReplay(last));
    }
  }

  lemma {:induction false} MergedOnRetry(rs: seq<Report>)
    ensures multiset(IdsWith(MapOnReplay(rs), Merged)) == multiset(IdsWith(rs, Created)) + multiset(IdsWith(rs, Merged))
  {
    hide IdsWith, ConflictsIn, MapOnReplay;
    NoReports();
    if rs != [] {
      var init, last := rs[..|rs| - 1], rs[|rs| - 1];
      MergedOnRetry(init);
      MapOnReplaySnoc(init, last);
      assert rs == init + [last];
      OneMoreReport(init, last);
      OneMoreReport(MapOnReplay(init), OnReplay(last));
    }
  }

  /** The ids of the reports that did not reject, in order. */
  function AcceptedIds(rs: seq<Report>): seq<string> {
    if rs == [] then []
    else
      var last := rs[|rs| - 1];
      AcceptedIds(rs[..|rs| - 1]) + if last.outcome.Created? || last.outcome.Merged? then [last.id] else []
  }

  lemma OneMoreAccepted(rs: seq<Report>, r: Report)
    ensures AcceptedIds([]) == []
    ensures AcceptedIds(rs + [r]) == AcceptedIds(rs) + if r.outcome.Created? || r.outcome.Merged? then [r.id] else []
  {
    assert (rs + [r])[..|rs|] == rs;
  }

  lemma {:induction false} AcceptedOnRetry(rs: seq<Report>)
    ensures IdsWith(MapOnReplay(rs), Merged) == AcceptedIds(rs)
  {
    hide IdsWith, ConflictsIn, MapOnReplay, AcceptedIds;
    NoReports();
    if rs == [] {
      OneMoreAccepted([], Report(Merged, ""));
    } else {
      var init, last := rs[..|rs| - 1], rs[|rs| - 1];
      AcceptedOnRetry(init);
      MapOnReplaySnoc(init, last);
      assert rs == init + [last];
      OneMoreReport(MapOnReplay(init), OnReplay(last));
      OneMoreAccepted(init, last);
    }
  }

  /**
   A retried hypothesis batch reports the identical conflicts; everything it first created or
   merged it now merges, in the order of the request, and nothing is created.
   */
  lemma RetriedHypothesisAnswer(s: State, d: Proto.HypothesisDelta, later: seq<Op>)
    requires Respond(s, MergeHypothesis(d)).hypothesis.Ok?
    ensures var first := Respond(s, MergeHypothesis(d)).hypothesis.value;
            var again := Respond(Run(Perform(s, MergeHypothesis(d)), later), MergeHypothesis(d)).hypothesis;
            && again.Ok?
            && again.value.createdIds == []
            && again.value.conflicts == first.conflicts
            && again.value.mergedIds == AcceptedIds(Reports(s, Entries(s, MergeHypothesis(d))))
            && multiset(again.value.mergedIds) == multiset(first.createdIds) + multiset(first.mergedIds)
  {
    var op := MergeHypothesis(d);
    var rs := Reports(s, Entries(s, op));
    var t := Run(Perform(s, op), later);
    assert Respond(s, op) == WriteResponse(op, Missing(s, op), rs);
    assert Respond(t, op) == WriteResponse(op, Missing(t, op), Reports(t, Entries(t, op)));
    hide Respond, Perform, Run, Reports, Entries, MapOnReplay, IdsWith, ConflictsIn, Plan, Failure, AcceptedIds;
    RetryHasNoEffect(s, op, later);
    AcceptedOnRetry(rs);
    NothingNewOnRetry(rs, Created);
    SameConflictsOnRetry(rs);
    MergedOnRetry(rs);
  }

  lemma NodeBurials(r: Proto.NodeTombstoneRequest)
    ensures var plan := Plan(MergeNodeTombstones(r));
            AllBury(Prefix(plan), r.incident, r.nodeIds) && Failure(plan) == None
  {
    var plan := BuryPlan(r.incident, r.nodeIds);
    assert Plan(MergeNodeTombstones(r)) == plan;
    hide Plan, Prefix, Failure, BuryPlan;
    var es := Prefix(plan);
    assert |es| == |plan|;
    forall i | 0 <= i < |es| ensures es[i] == BuryNode(r.incident, r.nodeIds[i]) {
      assert plan[i] == Ok(es[i]);
    }
  }

  lemma EntryBuries(incident: string, entry: Proto.EdgeTombstoneEntry)
    ensures var c := EntryConversion(incident, entry);
            c.Ok? ==>
              && c.value.BuryEdge? && c.value.incident == incident
              && Subject(c.value) == RenderEdgeId(entry.source, entry.target, entry.typeNumber)
  {
    hide RenderEdgeId;
  }

  lemma EdgeBurials(r: Proto.EdgeTombstoneRequest)
    requires Failure(Plan(MergeEdgeTombstones(r))) == None
    ensures AllBury(Prefix(Plan(MergeEdgeTombstones(r))), r.incident, EntryIds(r.entries))
  {
    var plan, ids := EntryPlan(r.incident, r.entries), EntryIds(r.entries);
    assert Plan(MergeEdgeTombstones(r)) == plan;
    hide Plan, Prefix, Failure, EntryPlan, EntryIds, RenderEdgeId, EntryConversion, Subject;
    var es := Prefix(plan);
    forall i | 0 <= i < |es|
      ensures es[i].BuryEdge? && es[i].incident == r.incident && Subject(es[i]) == ids[i]
    {
      assert plan[i] == Ok(es[i]);
      EntryBuries(r.incident, r.entries[i]);
    }
  }

  /** A retried tombstone batch lists every requested id, in order, as tombstoned already. */
  lemma RetriedNodeTombstonesAnswer(s: State, r: Proto.NodeTombstoneRequest, later: seq<Op>)
    requires Respond(s, MergeNodeTombstones(r)).tombstones.Ok?
    ensures Respond(Run(Perform(s, MergeNodeTombstones(r)), later), MergeNodeTombstones(r)) ==
            TombstoneReply(Ok(Proto.TombstoneMergeResult([], r.nodeIds, [])))
  {
    var op := MergeNodeTombstones(r);
    assert r.incident in s.incidents && !Missing(s, op);
    hide *;
    NodeBurials(r);
    RetriedBurials(s, op, Prefix(Plan(op)), r.incident, r.nodeIds, later);
  }

  lemma TombstoneAnswer(s: State, op: Op, es: seq<Event>)
    requires op.MergeNodeTombstones? || op.MergeEdgeTombstones?
    requires !Missing(s, op) && es == Prefix(Plan(op)) && Failure(Plan(op)) == None
    ensures Respond(s, op) == TombstoneReply(Ok(TombstoneResult(Reports(s, es))))
  {
  }

  predicate AllBury(es: seq<Event>, incident: string, ids: seq<string>) {
    && |es| == |ids|
    && forall i | 0 <= i < |es| ::
         (es[i].BuryNode? || es[i].BuryEdge?) && es[i].incident == incident && Subject(es[i]) == ids[i]
  }

  lemma RetriedBurials(s: State, op: Op, es: seq<Event>, incident: string, ids: seq<string>, later: seq<Op>)
    requires op.MergeNodeTombstones? || op.MergeEdgeTombstones?
    requires incident in s.incidents && !Missing(s, op)
    requires es == Prefix(Plan(op)) && Failure(Plan(op)) == None
    requires AllBury(es, incident, ids)
    ensures Respond(Run(Perform(s, op), later), op) ==
            TombstoneReply(Ok(Proto.TombstoneMergeResult([], ids, [])))
  {
    var t := Run(Perform(s, op), later);
    assert !IsRead(op);
    hide *;
    RetryHasNoEffect(s, op, later);
    WriteOutcome(s, op, es);
    WriteOutcome(t, op, es);
    TombstoneAnswer(t, op, es);
    RetriedBurialsAreKnown(s, es, incident, ids);
  }

  lemma RetriedBurialsAreKnown(s: State, es: seq<Event>, incident: string, ids: seq<string>)
    requires incident in s.incidents && AllBury(es, incident, ids)
    ensures TombstoneResult(MapOnReplay(Reports(s, es))) == Proto.TombstoneMergeResult([], ids, [])
  {
    hide Reports, Replay, IdsWith, MapOnReplay, Subject;
    var rs := MapOnReplay(Reports(s, es));
    forall i | 0 <= i < |es| ensures rs[i] == Report(AlreadyTombstoned, ids[i]) {
      ReportsAt(s, es, i);
      ReplayGrows(s, es[..i]);
      assert incident in Replay(s, es[..i]).incidents;
    }
    UniformReports(rs, AlreadyTombstoned, ids);
  }

  /** The ids an edge-tombstone request is reported under. */
  function EntryIds(entries: seq<Proto.EdgeTombstoneEntry>): (ids: seq<string>)
    ensures |ids| == |entries|
    ensures forall i | 0 <= i < |ids| :: ids[i] == RenderEdgeId(entries[i].source, entries[i].target, entries[i].typeNumber)
  {
    if entries == [] then []
    else
      var last := entries[|entries| - 1];
      EntryIds(entries[..|entries| - 1]) + [RenderEdgeId(last.source, last.target, last.typeNumber)]
  }

  lemma RetriedEdgeTombstonesAnswer(s: State, r: Proto.EdgeTombstoneRequest, later: seq<Op>)
    requires Respond(s, MergeEdgeTombstones(r)).tombstones.Ok?
    ensures Respond(Run(Perform(s, MergeEdgeTombstones(r)), later), MergeEdgeTombstones(r)) ==
            TombstoneReply(Ok(Proto.TombstoneMergeResult([], EntryIds(r.entries), [])))
  {
    var op := MergeEdgeTombstones(r);
    assert r.incident in s.incidents && !Missing(s, op) && Failure(Plan(op)) == None;
    hide *;
    EdgeBurials(r);
    RetriedBurials(s, op, Prefix(Plan(op)), r.incident, EntryIds(r.entries), later);
  }
}
