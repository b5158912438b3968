/** Incidents do not interfere: what concerns one incident cannot be seen through another. */
module Isolation {
  import opened Wrappers
  import opened Events
  import opened StoreSpec

  /** The incident an operation is addressed to, if any. */
  function Addressee(op: Op): Option<string> {
    match op
    case CreateIncident(i, _) => Some(i)
    case MergeNodeTombstones(r) => Some(r.incident)
    case MergeEdgeTombstones(r) => Some(r.incident)
    case GetIncidentContext(i) => Some(i)
    case GetLiveView(i) => Some(i)
    case GetTombstones(i) => Some(i)
    case _ => None
  }

  predicate Concerns(op: Op, incident: string) {
    Addressee(op) == None || Addressee(op) == Some(incident)
  }

  /** The run without the operations addressed to other incidents. */
  function Purge(ops: seq<Op>, incident: string): seq<Op> {
    if ops == [] then []
    else
      Purge(ops[..|ops| - 1], incident) + if Concerns(ops[|ops| - 1], incident) then [ops[|ops| - 1]] else []
  }

  /** The responses to the operations that `Purge` keeps. */
  function PurgeResponses(ops: seq<Op>, rs: seq<Response>, incident: string): seq<Response>
    requires |ops| == |rs|
  {
    if ops == [] then []
    else
      PurgeResponses(ops[..|ops| - 1], rs[..|rs| - 1], incident) +
      if Concerns(ops[|ops| - 1], incident) then [rs[|rs| - 1]] else []
  }

  /** Indistinguishable to anyone who looks only at `incident` and the shared graph. */
  predicate Alike(s: State, t: State, incident: string) {
    && s.nodes == t.nodes && s.edges == t.edges
    && (incident in s.incidents <==> incident in t.incidents)
    && (incident in s.incidents ==> s.incidents[incident] == t.incidents[incident])
  }

  predicate Shared(e: Event, incident: string) {
    e.PutNode? || e.PutEdge? || e.incident == incident
  }

  lemma SharedStep(s: State, t: State, e: Event, incident: string)
    requires Alike(s, t, incident) && Shared(e, incident)
    ensures Alike(Step(s, e), Step(t, e), incident)
    ensures ReportOf(s, e) == ReportOf(t, e)
  {
  }

  lemma ForeignStep(s: State, e: Event, incident: string)
    requires !Shared(e, incident)
    ensures Alike(Step(s, e), s, incident)
  {
  }

  lemma {:induction false} SharedReplay(s: State, t: State, es: seq<Event>, incident: string)
    requires Alike(s, t, incident) && forall e | e in es :: Shared(e, incident)
    ensures Alike(Replay(s, es), Replay(t, es), incident)
    ensures Reports(s, es) == Reports(t, es)
  {
    hide Step, ReportOf, Alike, Shared, Replay, Reports;
    ReplayNothing(s);
    ReplayNothing(t);
    if es != [] {
      var init, last := es[..|es| - 1], es[|es| - 1];
      assert es == init + [last] && last in es;
      SharedReplay(s, t, init, incident);
      ReplaySnoc(s, init, last);
      ReplaySnoc(t, init, last);
      SharedStep(Replay(s, init), Replay(t, init), last, incident);
    }
  }

  lemma {:induction false} ForeignReplay(s: State, es: seq<Event>, incident: string)
    requires forall e | e in es :: !Shared(e, incident)
    ensures Alike(Replay(s, es), s, incident)
  {
    if es != [] {
      var init, last := es[..|es| - 1], es[|es| - 1];
      assert last in es;
      ForeignReplay(s, init, incident);
      ForeignStep(Replay(s, init), last, incident);
      assert Replay(s, es) == Step(Replay(s, init), last);
      hide Replay, Step;
    }
  }

  lemma KindDecidesSharing(op: Op, e: Event, incident: string)
    requires KindOf(op, e)
    ensures Concerns(op, incident) <==> Shared(e, incident)
  {
  }

  lemma EntriesShare(s: State, op: Op, incident: string)
    ensures Concerns(op, incident) ==> forall e | e in Entries(s, op) :: Shared(e, incident)
    ensures !Concerns(op, incident) ==> forall e | e in Entries(s, op) :: !Shared(e, incident)
  {
    var es := Entries(s, op);
    assert es != [] ==> es == Prefix(Plan(op));
    hide Plan, Concerns, Shared, Entries, KindOf;
    forall e | e in es ensures Concerns(op, incident) <==> Shared(e, incident) {
      var i :| 0 <= i < |es| && es[i] == e;
      assert Plan(op)[i] == Ok(e);
      PlanKeepsKind(op, i);
      KindDecidesSharing(op, e, incident);
    }
  }

  lemma AlikeReads(s: State, t: State, op: Op, incident: string)
    requires Alike(s, t, incident) && Concerns(op, incident) && IsRead(op)
    ensures ReadResponse(s, op) == ReadResponse(t, op)
  {
  }

  lemma RespondIs(s: State, op: Op)
    ensures Perform(s, op) == Replay(s, Entries(s, op))
    ensures IsRead(op) ==> Respond(s, op) == ReadResponse(s, op)
    ensures !IsRead(op) ==> Respond(s, op) == WriteResponse(op, Missing(s, op), Reports(s, Entries(s, op)))
  {
  }

  lemma AlikeEntries(s: State, t: State, op: Op, incident: string)
    requires Alike(s, t, incident) && Concerns(op, incident)
    ensures Missing(s, op) <==> Missing(t, op)
    ensures Entries(s, op) == Entries(t, op)
  {
  }

  /** One operation that concerns the incident keeps alike states alike and is answered alike. */
  lemma ConcerningOp(s: State, t: State, op: Op, incident: string)
    requires Alike(s, t, incident) && Concerns(op, incident)
    ensures Alike(Perform(s, op), Perform(t, op), incident)
    ensures Respond(s, op) == Respond(t, op)
  {
    hide *;
    RespondIs(s, op);
    RespondIs(t, op);
    AlikeEntries(s, t, op, incident);
    EntriesShare(s, op, incident);
    SharedReplay(s, t, Entries(s, op), incident);
    if IsRead(op) {
      AlikeReads(s, t, op, incident);
    }
  }

  /** One operation addressed elsewhere leaves no trace. */
  lemma ForeignOp(s: State, op: Op, incident: string)
    requires !Concerns(op, incident)
    ensures Alike(Perform(s, op), s, incident)
  {
    hide *;
    RespondIs(s, op);
    EntriesShare(s, op, incident);
    ForeignReplay(s, Entries(s, op), incident);
  }

  lemma AlikeChains(s: State, t: State, u: State, incident: string)
    requires Alike(s, t, incident) && Alike(t, u, incident)
    ensures Alike(s, u, incident) && Alike(t, s, incident)
  {
  }

  /**
   Noninterference: deleting from any run everything addressed to other incidents, failures
   included, changes none of the remaining responses and nothing an observer of the incident sees.
   */
  lemma {:induction false} Noninterference(s: State, ops: seq<Op>, incident: string)
    ensures Alike(Run(s, ops), Run(s, Purge(ops, incident)), incident)
    ensures Responses(s, Purge(ops, incident)) == PurgeResponses(ops, Responses(s, ops), incident)
  {
    hide *;
    if ops == [] {
      PurgeNothing(s, incident);
    } else {
      var init, last := ops[..|ops| - 1], ops[|ops| - 1];
      var kept := Purge(init, incident);
      assert ops == init + [last];
      Noninterference(s, init, incident);
      PurgeSnoc(s, init, last, incident);
      RunSnoc(s, init, last);
      if Concerns(last, incident) {
        ConcerningOp(Run(s, init), Run(s, kept), last, incident);
        RunSnoc(s, kept, last);
      } else {
        ForeignOp(Run(s, init), last, incident);
        AlikeChains(Run(s, ops), Run(s, init), Run(s, kept), incident);
      }
    }
  }

  lemma PurgeNothing(s: State, incident: string)
    ensures Purge([], incident) == [] && Run(s, []) == s && Responses(s, []) == []
    ensures PurgeResponses([], [], incident) == [] && Alike(s, s, incident)
  {
  }

  lemma PurgeSnoc(s: State, init: seq<Op>, last: Op, incident: string)
    ensures Purge(init + [last], incident) ==
            if Concerns(last, incident) then Purge(init, incident) + [last] else Purge(init, incident)
    ensures PurgeResponses(init + [last], Responses(s, init + [last]), incident) ==
            PurgeResponses(init, Responses(s, init), incident) +
            if Concerns(last, incident) then [Respond(Run(s, init), last)] else []
  {
    RunSnoc(s, init, last);
    hide Respond, Run, Responses, Concerns;
    assert (init + [last])[..|init|] == init;
    var rs := Responses(s, init);
    assert (rs + [Respond(Run(s, init), last)])[..|rs|] == rs;
  }

  /** In particular every way of looking at the incident shows the same thing. */
  lemma ObserverSeesNoDifference(ops: seq<Op>, incident: string)
    ensures var s, t := Run(EMPTY, ops), Run(EMPTY, Purge(ops, incident));
            && LiveView(s, incident) == LiveView(t, incident)
            && Tombstones(s, incident) == Tombstones(t, incident)
            && IncidentContext(s, incident) == IncidentContext(t, incident)
            && MainGraph(s) == MainGraph(t)
  {
    Noninterference(EMPTY, ops, incident);
    hide Run, Purge, Responses, PurgeResponses;
  }
}
