/** The main results for whole runs of requests, in the terms of the requests and their answers. */
module Runs {
  import opened Wrappers
  import opened Events
  import opened GraphLattices
  import opened ClosedForm
  import opened LatticeRefinement
  import opened Convergence
  import opened StoreSpec
  import opened Conservation
  import opened LiveViews
  import opened Retries
  import Commutation
  import Growth
  import Proto
  import N = NodeLattices
  import E = EdgeLattices

  /** Every reachable state, field by field, from the log of processed entries alone. */
  lemma RunClosedForm(ops: seq<Op>, id: string, k: E.EdgeKey, incident: string)
    ensures var s, log := Run(EMPTY, ops), Log(EMPTY, ops);
            && (id in s.nodes <==> exists i :: ProposedAt(log, i, id))
            && (id in s.nodes ==> HasClosedForm(s.nodes[id], log, id))
            && (k in s.edges <==> exists i :: EdgeAt(log, i, k))
            && (k in s.edges ==> IsEdgeOf(s.edges[k], log, k))
            && (incident in s.incidents <==> exists o :: OpenedAt(log, o, incident))
            && (incident in s.incidents ==>
                  exists o :: FirstOpening(log, o, incident) && IsIncidentOf(s.incidents[incident], log, o, incident))
  {
    hide Run, Log, Replay, HasClosedForm, IsEdgeOf, IsIncidentOf, ProposedAt, EdgeAt, OpenedAt, FirstOpening;
    RunIsReplay(EMPTY, ops);
    NodeClosedForm(Log(EMPTY, ops), id);
    EdgeClosedForm(Log(EMPTY, ops), k);
    IncidentClosedForm(Log(EMPTY, ops), incident);
  }

  /**
   Whatever the proposals say, two runs that processed the same entries agree on the node ids, the
   edges and their records, the tombstones, and the ids that were ever rejected.
   */
  lemma ResidueOfRuns(a: seq<Op>, b: seq<Op>, id: string)
    requires SameEntries(Log(EMPTY, a), Log(EMPTY, b))
    ensures var s, t := Run(EMPTY, a), Run(EMPTY, b);
            s.nodes.Keys == t.nodes.Keys && SameEdges(s.edges, t.edges) && SameIncidents(s.incidents, t.incidents)
    ensures EverRejected(Log(EMPTY, a), id, "type") || EverRejected(Log(EMPTY, a), id, "label") <==>
            EverRejected(Log(EMPTY, b), id, "type") || EverRejected(Log(EMPTY, b), id, "label")
  {
    hide *;
    RunIsReplay(EMPTY, a);
    RunIsReplay(EMPTY, b);
    Commutation.LogsOpenFirst(a);
    Commutation.LogsOpenFirst(b);
    OrderIndependentResidue(Log(EMPTY, a), Log(EMPTY, b));
  }

  /** Two runs that processed the same entries reach the same state exactly when the winners agree. */
  lemma RunsConvergeIff(a: seq<Op>, b: seq<Op>)
    requires SameEntries(Log(EMPTY, a), Log(EMPTY, b))
    ensures SameState(Run(EMPTY, a), Run(EMPTY, b)) <==>
            forall id :: SameWinner(Log(EMPTY, a), Log(EMPTY, b), id)
  {
    hide *;
    RunIsReplay(EMPTY, a);
    RunIsReplay(EMPTY, b);
    Commutation.LogsOpenFirst(a);
    Commutation.LogsOpenFirst(b);
    ConvergesIffSameWinners(Log(EMPTY, a), Log(EMPTY, b));
  }

  /**
   Strong convergence, as clients see it: after two runs that processed the same entries, in any
   order, batching and multiplicity, and without disputes, every read gives the same answer, up to
   the timestamps of provenance records.
   */
  lemma ConvergedRunsReadAlike(a: seq<Op>, b: seq<Op>, incident: string)
    requires SameEntries(Log(EMPTY, a), Log(EMPTY, b)) && Harmonious(Log(EMPTY, a))
    ensures var s, t := Run(EMPTY, a), Run(EMPTY, b);
            && SameState(s, t)
            && SameGraph(MainGraph(s), MainGraph(t))
            && (LiveView(s, incident).Ok? <==> LiveView(t, incident).Ok?)
            && (LiveView(s, incident).Ok? ==> SameGraph(LiveView(s, incident).value, LiveView(t, incident).value))
            && Tombstones(s, incident) == Tombstones(t, incident)
  {
    hide *;
    RunIsReplay(EMPTY, a);
    RunIsReplay(EMPTY, b);
    Commutation.LogsOpenFirst(a);
    Commutation.LogsOpenFirst(b);
    StrongConvergence(Log(EMPTY, a), Log(EMPTY, b));
    ReadsAgree(Run(EMPTY, a), Run(EMPTY, b), incident);
  }

  // ---- Conflicts in answers ----

  predicate Rejects(r: Report, id: string, field: string) {
    r.outcome.Rejected? && r.outcome.field == field && r.id == id
  }

  ghost predicate RejectsIn(rs: seq<Report>, id: string, field: string) {
    exists i :: 0 <= i < |rs| && Rejects(rs[i], id, field)
  }

  ghost predicate Lists(cs: seq<Proto.MergeConflict>, id: string, field: string) {
    exists c :: c in cs && c.id == id && c.field == field
  }

  lemma {:induction false} RejectionsAreListed(rs: seq<Report>, id: string, field: string)
    ensures Lists(ConflictsIn(rs), id, field) <==> RejectsIn(rs, id, field)
  {
    hide ConflictsIn, IdsWith;
    NoReports();
    if rs != [] {
      var init, last := rs[..|rs| - 1], rs[|rs| - 1];
      assert rs == init + [last];
      RejectionsAreListed(init, id, field);
      OneMoreReport(init, last);
      RejectsInConcat(init, [last], id, field);
      assert RejectsIn([last], id, field) <==> Rejects(last, id, field) by {
        assert [last][0] == last;
      }
      if last.outcome.Rejected? {
        ListsSnoc(ConflictsIn(init), Proto.MergeConflict(last.id, last.outcome.field, last.outcome.existingValue, ""), id, field);
      }
    }
  }

  lemma ListsSnoc(cs: seq<Proto.MergeConflict>, c: Proto.MergeConflict, id: string, field: string)
    ensures Lists(cs + [c], id, field) <==> Lists(cs, id, field) || (c.id == id && c.field == field)
  {
    assert c in cs + [c];
  }

  lemma RejectsInConcat(a: seq<Report>, b: seq<Report>, id: string, field: string)
    ensures RejectsIn(a + b, id, field) <==> RejectsIn(a, id, field) || RejectsIn(b, id, field)
  {
    if i :| 0 <= i < |a| && Rejects(a[i], id, field) { assert (a + b)[i] == a[i]; }
    if i :| 0 <= i < |b| && Rejects(b[i], id, field) { assert (a + b)[|a| + i] == b[i]; }
    if i :| 0 <= i < |a + b| && Rejects((a + b)[i], id, field) {
      assert i < |a| ==> (a + b)[i] == a[i];
      assert i >= |a| ==> (a + b)[i] == b[i - |a|];
    }
  }

  lemma EverRejectedIs(es: seq<Event>, id: string, field: string)
    ensures EverRejected(es, id, field) <==> RejectsIn(Reports(EMPTY, es), id, field)
  {
    hide ReportOf, Replay, Reports;
    forall i | 0 <= i < |es| ensures RejectedAt(es, i, id, field) <==> Rejects(Reports(EMPTY, es)[i], id, field) {
      ReportsAt(EMPTY, es, i);
    }
  }

  /** An answer that lists a conflict about `field` of `id`. */
  ghost predicate AnswersConflict(r: Response, id: string, field: string) {
    r.HypothesisReply? && r.hypothesis.Ok? && Lists(r.hypothesis.value.conflicts, id, field)
  }

  ghost predicate EverAnswered(rs: seq<Response>, id: string, field: string) {
    exists i :: 0 <= i < |rs| && AnswersConflict(rs[i], id, field)
  }

  lemma OnlyProposalsAreRejected(s: State, es: seq<Event>, id: string, field: string)
    requires RejectsIn(Reports(s, es), id, field)
    ensures exists e :: e in es && e.PutNode?
  {
    var i :| 0 <= i < |es| && Rejects(Reports(s, es)[i], id, field);
    ReportsAt(s, es, i);
    assert es[i] in es;
  }

  lemma AnswerShape(s: State, op: Op)
    ensures op.MergeHypothesis? ==>
              && Respond(s, op).HypothesisReply?
              && (!Silent(Respond(s, op)) <==> Respond(s, op).hypothesis.Ok?)
              && (Respond(s, op).hypothesis.Ok? ==>
                    Respond(s, op).hypothesis.value.conflicts == ConflictsIn(Reports(s, Entries(s, op))))
    ensures !op.MergeHypothesis? ==> !Respond(s, op).HypothesisReply?
  {
  }

  lemma EntriesKindOf(s: State, op: Op)
    ensures (exists e :: e in Entries(s, op) && e.PutNode?) ==> op.MergeHypothesis?
  {
    hide *;
    EntriesAre(s, op);
    EntriesHaveKind(op);
    forall e | e in Prefix(Plan(op)) && e.PutNode? ensures op.MergeHypothesis? {
      KindIsLedger(s, op, e);
      GraphEntry(e);
    }
  }

  lemma GraphEntry(e: Event)
    ensures e.PutNode? ==> IsGraphEntry(e)
  {
  }

  lemma OpAnswersItsRejections(s: State, op: Op, id: string, field: string)
    ensures AnswersConflict(Respond(s, op), id, field) ==> RejectsIn(Reports(s, Entries(s, op)), id, field)
    ensures RejectsIn(Reports(s, Entries(s, op)), id, field) ==>
              op.MergeHypothesis? && (!Silent(Respond(s, op)) ==> AnswersConflict(Respond(s, op), id, field))
  {
    hide Respond, Reports, Entries, RejectsIn, ConflictsIn, Silent, Lists;
    AnswerShape(s, op);
    RejectionsAreListed(Reports(s, Entries(s, op)), id, field);
    if RejectsIn(Reports(s, Entries(s, op)), id, field) {
      OnlyProposalsAreRejected(s, Entries(s, op), id, field);
      EntriesKindOf(s, op);
    }
  }

  /** The `i`-th request of the run is a hypothesis and has a proposal rejected. */
  ghost predicate RejectsAt(ops: seq<Op>, i: int, id: string, field: string) {
    && 0 <= i < |ops| && ops[i].MergeHypothesis?
    && var s := Run(EMPTY, ops[..i]);
       RejectsIn(Reports(s, Entries(s, ops[i])), id, field)
  }

  /** The request merges with success: every type number it carries has a domain type. */
  predicate Converts(op: Op) {
    op.MergeHypothesis? && NodesConvert(op.delta) && EdgesConvert(op.delta)
  }

  lemma ConvertsIffAnswered(s: State, op: Op)
    requires op.MergeHypothesis?
    ensures Converts(op) <==> !Silent(Respond(s, op))
  {
    FailsIffBadTypeNumber(s, op.delta);
    hide Respond, BadNodeType, BadEdgeType;
    AnswerShape(s, op);
  }

  lemma {:induction false} LogRejections(ops: seq<Op>, id: string, field: string)
    ensures EverRejected(Log(EMPTY, ops), id, field) <==> exists i :: RejectsAt(ops, i, id, field)
  {
    hide *;
    RunNothing(EMPTY);
    if ops == [] {
      NothingRejected(id, field);
    } else {
      var init, last := ops[..|ops| - 1], ops[|ops| - 1];
      assert ops == init + [last];
      LogRejections(init, id, field);
      RunSnoc(EMPTY, init, last);
      RunIsReplay(EMPTY, init);
      var s, log := Run(EMPTY, init), Log(EMPTY, init);
      var es := Entries(s, last);
      EverRejectedIs(log, id, field);
      EverRejectedIs(log + es, id, field);
      ReplayConcat(EMPTY, log, es);
      RejectsInConcat(Reports(EMPTY, log), Reports(s, es), id, field);
      OpAnswersItsRejections(s, last, id, field);
      RejectsAtSnoc(init, last, id, field);
    }
  }

  lemma RejectsAtSnoc(init: seq<Op>, last: Op, id: string, field: string)
    ensures (exists i :: RejectsAt(init + [last], i, id, field)) <==>
            || (exists i :: RejectsAt(init, i, id, field))
            || (last.MergeHypothesis? && RejectsIn(Reports(Run(EMPTY, init), Entries(Run(EMPTY, init), last)), id, field))
  {
    var ops, n := init + [last], |init|;
    hide Run, Reports, Entries, RejectsIn;
    assert ops[..n] == init;
    forall i | i != n ensures RejectsAt(ops, i, id, field) <==> RejectsAt(init, i, id, field) {
      if 0 <= i < n {
        assert ops[..i] == init[..i];
      }
    }
    assert RejectsAt(ops, n, id, field) <==>
           last.MergeHypothesis? && RejectsIn(Reports(Run(EMPTY, init), Entries(Run(EMPTY, init), last)), id, field);
  }

  lemma NothingRejected(id: string, field: string)
    ensures !EverRejected([], id, field) && forall i :: !RejectsAt([], i, id, field)
  {
  }

  /**
   Which conflicts clients hear of: a conflict is in some answer exactly when some request that
   converts has it among its rejections, while the log rejects exactly what any request rejects. So
   only requests that stop half way keep conflicts to themselves.
   */
  lemma RejectionsAreAnswered(ops: seq<Op>, id: string, field: string)
    ensures EverAnswered(Responses(EMPTY, ops), id, field) <==>
            exists i :: RejectsAt(ops, i, id, field) && Converts(ops[i])
    ensures EverRejected(Log(EMPTY, ops), id, field) <==> exists i :: RejectsAt(ops, i, id, field)
  {
    hide *;
    LogRejections(ops, id, field);
    forall i
      ensures RejectsAt(ops, i, id, field) || AnsweredAt(ops, i, id, field) ==> 0 <= i < |ops|
      ensures 0 <= i < |ops| ==> (AnsweredAt(ops, i, id, field) <==> RejectsAt(ops, i, id, field) && Converts(ops[i]))
    {
      AnsweredAtIff(ops, i, id, field);
    }
    EverAnsweredIs(ops, id, field);
  }

  ghost predicate AnsweredAt(ops: seq<Op>, i: int, id: string, field: string) {
    0 <= i < |ops| && AnswersConflict(Responses(EMPTY, ops)[i], id, field)
  }

  lemma EverAnsweredIs(ops: seq<Op>, id: string, field: string)
    ensures EverAnswered(Responses(EMPTY, ops), id, field) <==> exists i :: AnsweredAt(ops, i, id, field)
  {
    hide Responses, AnswersConflict;
    if i :| 0 <= i < |ops| && AnswersConflict(Responses(EMPTY, ops)[i], id, field) {
      assert AnsweredAt(ops, i, id, field);
    }
  }

  lemma AnsweredAtIff(ops: seq<Op>, i: int, id: string, field: string)
    ensures RejectsAt(ops, i, id, field) || AnsweredAt(ops, i, id, field) ==> 0 <= i < |ops|
    ensures AnsweredAt(ops, i, id, field) <==> RejectsAt(ops, i, id, field) && Converts(ops[i])
  {
    hide Run, Reports, Entries, RejectsIn, Responses, Respond, Converts, AnswersConflict, Silent;
    if 0 <= i < |ops| {
      var s := Run(EMPTY, ops[..i]);
      ResponseAt(EMPTY, ops, i);
      OpAnswersItsRejections(s, ops[i], id, field);
      AnswerNeedsHypothesis(s, ops[i], id, field);
      if ops[i].MergeHypothesis? {
        ConvertsIffAnswered(s, ops[i]);
      }
    }
  }

  lemma AnswerNeedsHypothesis(s: State, op: Op, id: string, field: string)
    ensures AnswersConflict(Respond(s, op), id, field) ==> op.MergeHypothesis? && !Silent(Respond(s, op))
  {
    hide Respond, Lists;
    AnswerShape(s, op);
  }

  /** Some request rejected the proposal and then stopped half way, so no client was told. */
  ghost predicate EverSilenced(ops: seq<Op>, id: string, field: string) {
    exists i :: RejectsAt(ops, i, id, field) && !Converts(ops[i])
  }

  /** A client was told of the conflict, or the request that met it stopped half way. */
  ghost predicate EverMet(ops: seq<Op>, id: string, field: string) {
    EverAnswered(Responses(EMPTY, ops), id, field) || EverSilenced(ops, id, field)
  }

  lemma MetIsRejected(ops: seq<Op>, id: string, field: string)
    ensures EverMet(ops, id, field) <==> EverRejected(Log(EMPTY, ops), id, field)
  {
    hide EverAnswered, EverRejected, RejectsAt, Converts;
    RejectionsAreAnswered(ops, id, field);
  }

  /**
   The store refines the composite lattice, after every run. Both hold the same ids. An id is in
   conflict in the lattice exactly when some request met a conflict about it, told or untold; the
   lattice blames the type exactly when some conflict did, and the label when there were conflicts and
   all blamed the label; and wherever it is not in conflict, the stored node is the lattice's node,
   timestamps included. The edges are equal throughout.
   */
  lemma RunRefinesLattice(ops: seq<Op>, id: string)
    ensures var s, fold := Run(EMPTY, ops), FoldNodes(Log(EMPTY, ops));
            && (id in fold <==> id in s.nodes)
            && (id in fold ==>
                  var field := fold[id].ConflictField();
                  && (field == Some("type") <==> EverMet(ops, id, "type"))
                  && (field == Some("label") <==> EverMet(ops, id, "label") && !EverMet(ops, id, "type"))
                  && (field == None ==> fold[id] == s.nodes[id]))
            && s.edges == FoldEdges(Log(EMPTY, ops))
  {
    var log := Log(EMPTY, ops);
    hide *;
    RunIsReplay(EMPTY, ops);
    StoreRefinesFold(log, id);
    StoredEdgesAreTheFold(log);
    MetIsRejected(ops, id, "type");
    MetIsRejected(ops, id, "label");
  }

  lemma RejectionQuotesStored(s: State, e: Event, id: string, field: string)
    requires Growth.NoStoredTop(s) && Rejects(ReportOf(s, e), id, field)
    ensures id in s.nodes
    ensures ReportOf(s, e).outcome.existingValue ==
            if field == "type" then N.Display(s.nodes[id].nodeType.value) else s.nodes[id].nodeLabel.value
  {
    RejectionIsDisagreement(s, e, id, field);
    hide N.Display;
  }

  lemma FirstProposalPersists(es: seq<Event>, i: nat, f: int, id: string)
    requires i <= |es| && FirstProposal(es[..i], f, id)
    ensures f < i && FirstProposal(es, f, id) && es[..i][f] == es[f]
  {
    assert forall j | 0 <= j <= f :: ProposedAt(es[..i], j, id) <==> ProposedAt(es, j, id);
  }

  /** `quote` is what entry `f` proposed for the field. */
  ghost predicate Quotes(es: seq<Event>, f: int, id: string, field: string, quote: string) {
    && ProposedAt(es, f, id)
    && quote == if field == "type" then N.Display(es[f].node.nodeType.value) else es[f].node.nodeLabel.value
  }

  lemma StoredFieldIsFirstProposal(init: seq<Event>, id: string) returns (f: int)
    requires id in Replay(EMPTY, init).nodes
    ensures FirstProposal(init, f, id)
    ensures var n := Replay(EMPTY, init).nodes[id];
            n.nodeType == init[f].node.nodeType && n.nodeLabel == init[f].node.nodeLabel
  {
    NodeClosedForm(init, id);
    hide Replay, HasClosedForm;
    f := Commutation.FirstExists(init, id);
    FirstWins(init, f, id);
  }

  /** A conflict quotes what the first proposal said. */
  lemma RejectionQuotesFirstProposal(es: seq<Event>, i: nat, id: string, field: string)
    requires i < |es| && Rejects(Reports(EMPTY, es)[i], id, field)
    ensures exists f :: f < i && FirstProposal(es, f, id) && Quotes(es, f, id, field, Reports(EMPTY, es)[i].outcome.existingValue)
  {
    hide Replay, Reports, ReportOf, FirstProposal, N.Display;
    var init := es[..i];
    ReportsAt(EMPTY, es, i);
    Growth.ReplayStoresNoTop(EMPTY, init);
    RejectionQuotesStored(Replay(EMPTY, init), es[i], id, field);
    var f := StoredFieldIsFirstProposal(init, id);
    FirstProposalPersists(es, i, f, id);
    FirstIsProposed(es, f, id);
    assert Quotes(es, f, id, field, Reports(EMPTY, es)[i].outcome.existingValue);
  }

  lemma FirstIsProposed(es: seq<Event>, f: int, id: string)
    requires FirstProposal(es, f, id)
    ensures ProposedAt(es, f, id)
  {
  }
}
